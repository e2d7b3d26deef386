/**
 The loops of the generated codecs that every message shares: writing varints and records into a
 buffer, measuring them, reading varints with 64-bit accumulators, and skipping unknown fields.
 Lengths and indices are Go `int`s: additions on untrusted lengths go through `Add64`.
 */
module WireCode {
  import opened Wire

  /** `x << n` before it is cut to a word. */
  function Shl(x: nat, n: nat): nat {
    if n == 0 then x else 2 * Shl(x, n - 1)
  }

  /** `x` moved up by `k` groups of seven bits. */
  function Groups(k: nat, x: nat): nat {
    if k == 0 then x else 128 * Groups(k - 1, x)
  }

  lemma {:induction false} ShlIsGroups(x: nat, k: nat)
    ensures Shl(x, 7 * k) == Groups(k, x)
  {
    if k > 0 {
      ShlIsGroups(x, k - 1);
      var n := 7 * k - 7;
      assert Shl(x, n + 1) == 2 * Shl(x, n) && Shl(x, n + 2) == 4 * Shl(x, n);
      assert Shl(x, n + 3) == 8 * Shl(x, n) && Shl(x, n + 4) == 16 * Shl(x, n);
      assert Shl(x, n + 5) == 32 * Shl(x, n) && Shl(x, n + 6) == 64 * Shl(x, n);
    }
  }

  lemma {:induction false} GroupsAdd(k: nat, x: nat, y: nat)
    ensures Groups(k, x + y) == Groups(k, x) + Groups(k, y)
  {
    if k > 0 {
      GroupsAdd(k - 1, x, y);
    }
  }

  lemma {:induction false} GroupsUp(k: nat, x: nat)
    ensures Groups(k, 128 * x) == Groups(k + 1, x)
  {
    if k > 0 {
      GroupsUp(k - 1, x);
    }
  }

  lemma {:induction false} GroupsMono(k: nat, x: nat, y: nat)
    requires x <= y
    ensures Groups(k, x) <= Groups(k, y)
  {
    if k > 0 {
      GroupsMono(k - 1, x, y);
    }
  }

  lemma {:induction false} GroupsGrow(j: nat, k: nat, x: nat)
    requires j <= k
    ensures Groups(j, x) <= Groups(k, x)
    decreases k
  {
    if j < k {
      GroupsGrow(j, k - 1, x);
    }
  }

  lemma NineGroups(x: nat)
    ensures Groups(9, x) == TWO_63 * x
  {
    assert Groups(1, x) == 0x80 * x;
    assert Groups(2, x) == 0x4000 * x;
    assert Groups(3, x) == 0x20_0000 * x;
    assert Groups(4, x) == 0x1000_0000 * x;
    assert Groups(5, x) == 0x8_0000_0000 * x;
    assert Groups(6, x) == 0x400_0000_0000 * x;
    assert Groups(7, x) == 0x2_0000_0000_0000 * x;
    assert Groups(8, x) == 0x100_0000_0000_0000 * x;
  }

  /** `uint64(b) << shift`: bits shifted out of the word are lost. */
  function ShiftLeft64(b: byte, shift: nat): uint64 {
    Shl(b, shift) % TWO_64
  }

  /** A length read into a signed `int` variable has the same bits. */
  function AsInt64(v: uint64): int64 {
    if v < TWO_63 then v else v - TWO_64
  }

  // ----- Writing -----

  /** `s` with `w` written over it from index `i` on. */
  function Splice(s: bytes, i: nat, w: bytes): (r: bytes)
    requires i + |w| <= |s|
    ensures |r| == |s|
    ensures r[i..i + |w|] == w
  {
    s[..i] + w + s[i + |w|..]
  }

  lemma SpliceTwice(s: bytes, i: nat, a: bytes, b: bytes)
    requires i + |a| + |b| <= |s|
    ensures Splice(Splice(s, i, a), i + |a|, b) == Splice(s, i, a + b)
  {
  }

  /** Bytes `t` and then `e` written behind what `w` has been written. */
  lemma WroteTwice(base: bytes, off: nat, w: bytes, i: nat, t: bytes, e: bytes)
    requires i == off + |w| && i + |t| + |e| <= |base|
    ensures Splice(Splice(Splice(base, off, w), i, t), i + |t|, e) == Splice(base, off, w + (t + e))
  {
    SpliceTwice(Splice(base, off, w), i, t, e);
    SpliceTwice(base, off, w, t + e);
  }

  method PutByte(d: array<byte>, i: nat, b: byte)
    requires i < d.Length
    modifies d
    ensures d[..] == Splice(old(d[..]), i, [b])
  {
    d[i] := b;
  }

  method EncodeVarint(dAtA: array<byte>, offset: nat, v: uint64) returns (next: nat)
    requires offset + |EncVarint(v)| <= dAtA.Length
    modifies dAtA
    ensures next == offset + |EncVarint(v)|
    ensures dAtA[..] == Splice(old(dAtA[..]), offset, EncVarint(v))
  {
    var i, x := offset, v;
    ghost var done: bytes := [];
    ghost var before := dAtA[..];
    assert before == Splice(before, offset, done);
    while x >= 128
      invariant 0 <= x < TWO_64 && i == offset + |done|
      invariant done + EncVarint(x) == EncVarint(v)
      invariant dAtA[..] == Splice(before, offset, done)
      decreases x
    {
      ghost var b: byte := x % 128 + 128;
      assert done + EncVarint(x) == done + [b] + EncVarint(x / 128) by {
        assert EncVarint(x) == [b] + EncVarint(x / 128);
      }
      PutByte(dAtA, i, x % 128 + 128);
      SpliceTwice(before, offset, done, [b]);
      x, i, done := x / 128, i + 1, done + [b];
    }
    assert EncVarint(x) == [x];
    PutByte(dAtA, i, x);
    SpliceTwice(before, offset, done, [x]);
    return i + 1;
  }

  method Sov(v: uint64) returns (n: nat)
    ensures n == |EncVarint(v)|
    ensures 1 <= n <= 10
  {
    VarintRoundTrip(v, []);
    n := 0;
    var x := v;
    while true
      invariant 0 <= x < TWO_64
      invariant n + |EncVarint(x)| == |EncVarint(v)|
      decreases x
    {
      n := n + 1;
      ghost var before := x;
      x := x / 128;
      if x == 0 {
        assert before < 128;
        return;
      }
    }
  }

  /** Tag and length in front of a body of `len` bytes. */
  method PutHeader(d: array<byte>, i: nat, num: nat, len: nat) returns (next: nat)
    requires num < MAX_TAG_NUM && len < TWO_63
    requires i + |EncTag(num) + EncVarint(len)| <= d.Length
    modifies d
    ensures next == i + |EncTag(num) + EncVarint(len)|
    ensures d[..] == Splice(old(d[..]), i, EncTag(num) + EncVarint(len))
  {
    ghost var before := d[..];
    next := EncodeVarint(d, i, num * 8 + 2);
    next := EncodeVarint(d, next, len);
    SpliceTwice(before, i, EncTag(num), EncVarint(len));
  }

  /** `copy(dAtA[i:], b)` */
  method PutBytes(d: array<byte>, i: nat, b: bytes) returns (next: nat)
    requires i + |b| <= d.Length
    modifies d
    ensures next == i + |b|
    ensures d[..] == Splice(old(d[..]), i, b)
  {
    forall j | 0 <= j < |b| {
      d[i + j] := b[j];
    }
    next := i + |b|;
  }

  method PutRec(d: array<byte>, i: nat, r: Rec) returns (next: nat)
    requires r.num < MAX_TAG_NUM && |r.body| < TWO_63
    requires i + |EncRec(r)| <= d.Length
    modifies d
    ensures next == i + |EncRec(r)|
    ensures d[..] == Splice(old(d[..]), i, EncRec(r))
  {
    ghost var before := d[..];
    next := PutHeader(d, i, r.num, |r.body|);
    next := PutBytes(d, next, r.body);
    SpliceTwice(before, i, EncTag(r.num) + EncVarint(|r.body|), r.body);
  }

  // ----- Writing a message field by field -----

  /** `s` is `base` with the bytes `w` written from `off` up to `i`. */
  ghost predicate Wrote(s: bytes, base: bytes, off: nat, w: bytes, i: nat) {
    i == off + |w| <= |base| && s == Splice(base, off, w)
  }

  lemma EncOne(r: Rec)
    ensures EncAll([r]) == EncRec(r)
  {
    assert EncAll([r]) == EncRec(r) + EncAll([]);
  }

  method PutScalar(d: array<byte>, i: nat, num: nat, b: bytes, ghost base: bytes, ghost off: nat, ghost w: bytes)
    returns (next: nat)
    requires FieldNum(num) && Wrote(d[..], base, off, w, i)
    requires i + |EncAll(Scalar(num, b))| <= d.Length && |EncAll(Scalar(num, b))| < TWO_63
    modifies d
    ensures Wrote(d[..], base, off, w + EncAll(Scalar(num, b)), next)
  {
    if |b| > 0 {
      EncOne(Rec(num, b));
      next := PutRec(d, i, Rec(num, b));
      SpliceTwice(base, off, w, EncRec(Rec(num, b)));
    } else {
      assert w + [] == w;
      next := i;
    }
  }

  method PutRepeated(d: array<byte>, i: nat, num: nat, bs: seq<bytes>, ghost base: bytes, ghost off: nat, ghost w: bytes)
    returns (next: nat)
    requires FieldNum(num) && Wrote(d[..], base, off, w, i)
    requires i + |EncAll(Repeated(num, bs))| <= d.Length && |EncAll(Repeated(num, bs))| < TWO_63
    modifies d
    ensures Wrote(d[..], base, off, w + EncAll(Repeated(num, bs)), next)
  {
    next := i;
    ghost var now := w;
    assert bs[0..] == bs;
    for k := 0 to |bs|
      invariant now + EncAll(Repeated(num, bs[k..])) == w + EncAll(Repeated(num, bs))
      invariant |EncAll(Repeated(num, bs[k..]))| < TWO_63
      invariant Wrote(d[..], base, off, now, next)
    {
      ghost var e := EncRec(Rec(num, bs[k]));
      RepeatedFirst(num, bs, k);
      assert now + EncAll(Repeated(num, bs[k..])) == now + e + EncAll(Repeated(num, bs[k + 1..]));
      next := PutRec(d, next, Rec(num, bs[k]));
      SpliceTwice(base, off, now, e);
      now := now + e;
    }
    assert now + [] == now;
  }

  lemma RepeatedFirst(num: nat, bs: seq<bytes>, k: nat)
    requires k < |bs|
    ensures EncAll(Repeated(num, bs[k..])) == EncRec(Rec(num, bs[k])) + EncAll(Repeated(num, bs[k + 1..]))
  {
    assert bs[k..][1..] == bs[k + 1..];
  }

  // ----- Measuring -----

  /** Of the bytes `total`, `now` is written and the entries of a repeated field from `k` on are not. */
  ghost predicate ToWrite(num: nat, bs: seq<bytes>, k: nat, now: bytes, total: bytes) {
    && k <= |bs| && now + EncAll(Repeated(num, bs[k..])) == total
    && |EncAll(Repeated(num, bs[k..]))| < TWO_63
  }

  lemma WriteNext(num: nat, bs: seq<bytes>, k: nat, now: bytes, total: bytes)
    requires k < |bs| && ToWrite(num, bs, k, now, total)
    ensures ToWrite(num, bs, k + 1, now + EncRec(Rec(num, bs[k])), total)
    ensures |now + EncRec(Rec(num, bs[k]))| <= |total| && |bs[k]| < TWO_63
  {
    var e := EncRec(Rec(num, bs[k]));
    RepeatedFirst(num, bs, k);
    assert now + (e + EncAll(Repeated(num, bs[k + 1..]))) == now + e + EncAll(Repeated(num, bs[k + 1..]));
  }

  lemma AllWritten(num: nat, bs: seq<bytes>, now: bytes, total: bytes)
    requires ToWrite(num, bs, |bs|, now, total)
    ensures now == total
  {
    assert now + [] == now;
  }

  /** `1 + l + sov(l)`, with as many bytes for the tag as the field number takes. */
  method SizeHeader(num: nat, l: nat) returns (n: nat)
    requires num < MAX_TAG_NUM && l < TWO_63
    ensures n == |EncTag(num)| + |EncVarint(l)| + l
  {
    var tag := Sov(num * 8 + 2);
    n := Sov(l);
    n := tag + l + n;
  }

  method SizeRec(r: Rec) returns (n: nat)
    requires r.num < MAX_TAG_NUM && |r.body| < TWO_63
    ensures n == |EncRec(r)|
  {
    n := SizeHeader(r.num, |r.body|);
  }

  method SizeScalar(num: nat, b: bytes) returns (n: nat)
    requires FieldNum(num) && |EncAll(Scalar(num, b))| < TWO_63
    ensures n == |EncAll(Scalar(num, b))|
  {
    n := 0;
    if |b| > 0 {
      EncOne(Rec(num, b));
      n := SizeRec(Rec(num, b));
    }
  }

  method SizeRepeated(num: nat, bs: seq<bytes>) returns (n: nat)
    requires FieldNum(num) && |EncAll(Repeated(num, bs))| < TWO_63
    ensures n == |EncAll(Repeated(num, bs))|
  {
    n := 0;
    assert bs[0..] == bs;
    for k := 0 to |bs|
      invariant n + |EncAll(Repeated(num, bs[k..]))| == |EncAll(Repeated(num, bs))|
    {
      RepeatedFirst(num, bs, k);
      var l := SizeRec(Rec(num, bs[k]));
      n := n + l;
    }
  }

  // ----- Reading -----

  /** What is known of a varint after `k` bytes with value `v`, the rest being `r`. */
  ghost function Join(v: nat, k: nat, r: Option<(nat, nat)>): Option<(nat, nat)> {
    match r
    case None => None
    case Some((w, n)) => Some((v + Groups(k, w), k + n))
  }

  lemma JoinStep(v: nat, k: nat, s: bytes)
    requires k < 10 && s != [] && s[0] >= 128
    ensures Join(v, k, RawVarint(s, 10 - k))
         == Join(v + Groups(k, s[0] % 128), k + 1, RawVarint(s[1..], 9 - k))
  {
    var c := s[0] - 128;
    assert s[0] % 128 == c;
    var r := RawVarint(s[1..], 9 - k);
    if r.Some? {
      var w := r.value.0;
      assert RawVarint(s, 10 - k) == Some((c + 128 * w, r.value.1 + 1));
      GroupsAdd(k, c, 128 * w);
      GroupsUp(k, w);
    } else {
      assert RawVarint(s, 10 - k) == None;
    }
  }

  /** Below the tenth group nothing is lost, and the accumulator stays below the next group. */
  lemma LowGroup(v: nat, k: nat, b: byte)
    requires k < 9 && v < Groups(k, 1) && b < 128
    ensures ShiftLeft64(b, 7 * k) == Groups(k, b)
    ensures v + Groups(k, b) < Groups(k + 1, 1) <= TWO_63
  {
    ShlIsGroups(b, k);
    GroupsMono(k, b, 127);
    GroupsAdd(k, 127, 1);
    GroupsUp(k, 1);
    GroupsGrow(k + 1, 9, 1);
    NineGroups(1);
  }

  /** Of the tenth group only the lowest bit fits the word. */
  lemma LastGroup(v: nat, b: byte)
    requires v < Groups(9, 1) && b < 128
    ensures v < TWO_63
    ensures ShiftLeft64(b, 63) == if b % 2 == 0 then 0 else TWO_63
    ensures (v + Groups(9, b)) % TWO_64 == v + ShiftLeft64(b, 63)
  {
    NineGroups(1);
    NineGroups(b);
    ShlIsGroups(b, 9);
    TopBit(0, b);
    TopBit(v, b);
  }

  lemma TopBit(v: nat, b: byte)
    requires v < TWO_63
    ensures (v + TWO_63 * b) % TWO_64 == if b % 2 == 0 then v else v + TWO_63
  {
    var h := b / 2;
    if b % 2 == 0 {
      assert v + TWO_63 * b == v + TWO_64 * h;
    } else {
      assert v + TWO_63 * b == (v + TWO_63) + TWO_64 * h;
    }
  }

  /** What one turn of the shift loop does to the accumulator, `s` being the unread input. */
  ghost predicate Accumulates(v: nat, v': nat, k: nat, s: bytes)
    requires k < 10 && s != []
  {
    var r := Join(v, k, RawVarint(s, 10 - k));
    v' < TWO_64 &&
    if s[0] < 128 then r.Some? && r.value.1 == k + 1 && r.value.0 % TWO_64 == v'
    else if k < 9 then v' < Groups(k + 1, 1) && r == Join(v', k + 1, RawVarint(s[1..], 9 - k))
    else r == None
  }

  lemma Accumulate(v: nat, k: nat, s: bytes)
    requires k < 10 && v < Groups(k, 1) && s != []
    ensures Accumulates(v, v + ShiftLeft64(s[0] % 128, 7 * k), k, s)
  {
    if k < 9 {
      AccumulateLow(v, k, s);
    } else {
      AccumulateLast(v, k, s);
    }
  }

  lemma AccumulateLow(v: nat, k: nat, s: bytes)
    requires k < 9 && v < Groups(k, 1) && s != []
    ensures Accumulates(v, v + ShiftLeft64(s[0] % 128, 7 * k), k, s)
  {
    LowGroup(v, k, s[0] % 128);
    var v' := v + Groups(k, s[0] % 128);
    if s[0] >= 128 {
      AccumulateMore(v, v', k, s);
    } else {
      AccumulateEnd(v, v', k, s);
    }
  }

  lemma AccumulateMore(v: nat, v': nat, k: nat, s: bytes)
    requires k < 9 && s != [] && s[0] >= 128 && v' == v + Groups(k, s[0] % 128)
    requires v' < Groups(k + 1, 1) && v' < TWO_64
    ensures Accumulates(v, v', k, s)
  {
    JoinStep(v, k, s);
  }

  lemma AccumulateEnd(v: nat, v': nat, k: nat, s: bytes)
    requires k < 9 && s != [] && s[0] < 128 && v' == v + Groups(k, s[0] % 128) && v' < TWO_64
    ensures Accumulates(v, v', k, s)
  {
    JoinLast(v, k, s);
  }

  lemma JoinLast(v: nat, k: nat, s: bytes)
    requires k < 10 && s != [] && s[0] < 128 && v + Groups(k, s[0] % 128) < TWO_64
    ensures var r := Join(v, k, RawVarint(s, 10 - k));
            r == Some((v + Groups(k, s[0] % 128), k + 1)) && r.value.0 % TWO_64 == r.value.0
  {
    LastByte(s, 10 - k);
    WordMod(v + Groups(k, s[0] % 128));
  }

  lemma WordMod(x: nat)
    requires x < TWO_64
    ensures x % TWO_64 == x
  {
  }

  lemma LastByte(s: bytes, budget: nat)
    requires budget > 0 && s != [] && s[0] < 128
    ensures RawVarint(s, budget) == Some((s[0] % 128, 1))
  {
  }

  lemma AccumulateLast(v: nat, k: nat, s: bytes)
    requires k == 9 && v < Groups(k, 1) && s != []
    ensures Accumulates(v, v + ShiftLeft64(s[0] % 128, 7 * k), k, s)
  {
    LastGroup(v, s[0] % 128);
    if s[0] < 128 {
      assert RawVarint(s, 10 - k) == Some((s[0], 1));
    } else {
      assert RawVarint(s[1..], 9 - k) == None;
    }
  }

  /** The shift loop after `k` bytes: `raw` is the varint it is reading, `s` the unread input. */
  ghost predicate Reading(raw: Option<(nat, nat)>, v: nat, k: nat, s: bytes) {
    if k <= 9 then v < Groups(k, 1) && raw == Join(v, k, RawVarint(s, 10 - k)) else k == 10 && raw == None
  }

  lemma ReadTurn(raw: Option<(nat, nat)>, v: nat, k: nat, s: bytes)
    requires Reading(raw, v, k, s) && k < 10
    ensures s == [] ==> raw == None
    ensures s != [] ==>
              var v' := v + ShiftLeft64(s[0] % 128, 7 * k);
              v' < TWO_64 &&
              if s[0] < 128 then raw.Some? && raw.value.1 == k + 1 && raw.value.0 % TWO_64 == v'
              else Reading(raw, v', k + 1, s[1..])
  {
    if s != [] {
      Accumulate(v, k, s);
    }
  }

  /**
   The decoder's shift loop. The accumulator stays below `1 << shift`, so the source's `|=` of the
   shifted group is the addition written here.
   */
  method ReadVarint(dAtA: bytes, start: nat) returns (ok: bool, v: uint64, i: nat)
    requires start <= |dAtA|
    ensures start <= i <= |dAtA|
    ensures ok <==> Varint(dAtA[start..]).Some?
    ensures ok ==> Varint(dAtA[start..]) == Some((v, i - start))
  {
    ghost var raw := RawVarint(dAtA[start..], 10);
    i, v := start, 0;
    var shift := 0;
    ghost var k := 0;
    assert Reading(raw, v, k, dAtA[i..]);
    while true
      invariant shift == 7 * k && 0 <= k <= 10 && i == start + k <= |dAtA|
      invariant Reading(raw, v, k, dAtA[i..])
      decreases 10 - k
    {
      if shift >= 64 {
        return false, v, i;
      }
      ReadTurn(raw, v, k, dAtA[i..]);
      if i >= |dAtA| {
        return false, v, i;
      }
      assert dAtA[i..][1..] == dAtA[i + 1..];
      var b := dAtA[i];
      i := i + 1;
      v := v + ShiftLeft64(b % 128, shift);
      if b < 128 {
        return true, v, i;
      }
      shift, k := shift + 7, k + 1;
    }
  }

  /**
   Recursive skipping with wrapping `int` arithmetic. The result may lie beyond the input or, after a
   wrap-around, below zero; inside the input it is exactly the length of the first field. Called on
   empty input the source panics.
   */
  method SkipCodec(dAtA: bytes) returns (ok: bool, n: int64)
    requires dAtA != [] && |dAtA| < TWO_63
    ensures ok && 0 <= n <= |dAtA| <==> Skip(dAtA).Some?
    ensures Skip(dAtA).Some? ==> n == Skip(dAtA).value
    ensures ok && n < 0 ==> n + TWO_64 <= |dAtA| + 8
    decreases |dAtA|, 3
  {
    var valid, wire, iNdEx := ReadVarint(dAtA, 0);
    if !valid {
      return false, 0;
    }
    var wireType := wire % 8;
    assert dAtA[0..] == dAtA;
    match wireType {
      case 0 =>
        valid, wire, iNdEx := ReadVarint(dAtA, iNdEx);
        return valid, iNdEx;
      case 1 =>
        return true, Add64(iNdEx, 8);
      case 2 =>
        valid, wire, iNdEx := ReadVarint(dAtA, iNdEx);
        var length := AsInt64(wire);
        if !valid || length < 0 {
          return false, 0;
        }
        n := Add64(iNdEx, length);
        return n >= 0, n;
      case 3 =>
        ok, n := SkipGroupCodec(dAtA, iNdEx);
      case 4 =>
        return true, iNdEx;
      case 5 =>
        return true, Add64(iNdEx, 4);
      case _ =>
        return false, 0;
    }
  }

  /** The group loop of SkipCodec, from behind the start-group tag. */
  method SkipGroupCodec(dAtA: bytes, first: nat) returns (ok: bool, n: int64)
    requires 1 <= first <= |dAtA| < TWO_63
    ensures ok <==> SkipGroup(dAtA[first..]).Some?
    ensures ok ==> n == first + SkipGroup(dAtA[first..]).value
    decreases |dAtA|, 2
  {
    ghost var target := SkipGroup(dAtA[first..]);
    n := first;
    while true
      invariant InGroup(target, dAtA, first, n)
      decreases |dAtA| - n
    {
      if n >= |dAtA| {
        OpenGroup(target, dAtA, first, n);
        return false, n;
      }
      ghost var before := n;
      var closed;
      ok, closed, n := SkipElementCodec(dAtA, n);
      NextInGroup(target, dAtA, first, before, ok, closed, n);
      if !ok || closed {
        return;
      }
    }
  }

  /** The group that starts at `first` has the length `target`, if any, and its loop has come to `n`. */
  ghost predicate InGroup(target: Option<nat>, dAtA: bytes, first: nat, n: int) {
    first <= n && target == if n <= |dAtA| then Advance(n - first, SkipGroup(dAtA[n..])) else None
  }

  lemma OpenGroup(target: Option<nat>, dAtA: bytes, first: nat, n: int)
    requires InGroup(target, dAtA, first, n) && n >= |dAtA|
    ensures target == None
  {
    if n == |dAtA| {
      GroupAtEnd(dAtA[n..]);
    }
  }

  lemma NextInGroup(target: Option<nat>, dAtA: bytes, first: nat, before: nat, ok: bool, closed: bool, n: int)
    requires InGroup(target, dAtA, first, before) && before < |dAtA|
    requires !ok ==> SkipGroup(dAtA[before..]) == None
    requires ok ==> before < n
    requires ok && closed ==> n <= |dAtA| && SkipGroup(dAtA[before..]) == Some(n - before)
    requires ok && !closed ==>
               SkipGroup(dAtA[before..]) == if n <= |dAtA| then Advance(n - before, SkipGroup(dAtA[n..])) else None
    ensures !ok ==> target == None
    ensures ok && closed ==> target == Some(n - first)
    ensures ok && !closed ==> InGroup(target, dAtA, first, n)
  {
  }

  /** One turn of that loop: the end tag closes the group, any other field is skipped. */
  method SkipElementCodec(dAtA: bytes, start: nat) returns (ok: bool, closed: bool, n: int64)
    requires 1 <= start < |dAtA| < TWO_63
    ensures !ok ==> SkipGroup(dAtA[start..]) == None
    ensures ok ==> start < n
    ensures ok && closed ==> n <= |dAtA| && SkipGroup(dAtA[start..]) == Some(n - start)
    ensures ok && !closed ==>
              SkipGroup(dAtA[start..]) == if n <= |dAtA| then Advance(n - start, SkipGroup(dAtA[n..])) else None
    decreases |dAtA|, 1
  {
    var valid, innerWire, iNdEx := ReadVarint(dAtA, start);
    if !valid {
      GroupAtEnd(dAtA[start..]);
      return false, false, 0;
    }
    if innerWire % 8 == 4 {
      GroupAtEnd(dAtA[start..]);
      return true, true, iNdEx;
    }
    ok, n := SkipInnerCodec(dAtA, start);
    GroupTurn(dAtA, start, ok, n);
    return ok, false, n;
  }

  /** The recursive call on the rest of the input, and the index behind what it skips. */
  method SkipInnerCodec(dAtA: bytes, start: nat) returns (ok: bool, n: int64)
    requires 1 <= start < |dAtA| < TWO_63
    ensures !ok ==> Skip(dAtA[start..]) == None
    ensures ok ==> start < n
    ensures ok ==> if n <= |dAtA| then Skip(dAtA[start..]) == Some(n - start) else Skip(dAtA[start..]) == None
    decreases |dAtA|, 0
  {
    var next;
    ok, next := SkipCodec(dAtA[start..]);
    if !ok {
      return false, 0;
    }
    n := Add64(start, next);
    return n >= 0, n;
  }

  /** The skipped field moves the group loop to the index behind it. */
  lemma GroupTurn(dAtA: bytes, start: nat, ok: bool, n: int)
    requires start < |dAtA| && Varint(dAtA[start..]).Some? && Varint(dAtA[start..]).value.0 % 8 != 4
    requires !ok ==> Skip(dAtA[start..]) == None
    requires ok ==> start < n && Skip(dAtA[start..]) == if n <= |dAtA| then Some(n - start) else None
    ensures !ok ==> SkipGroup(dAtA[start..]) == None
    ensures ok ==> SkipGroup(dAtA[start..]) ==
                   if n <= |dAtA| then Advance(n - start, SkipGroup(dAtA[n..])) else None
  {
    GroupAtField(dAtA[start..]);
    if ok && n <= |dAtA| {
      DropTwice(dAtA, start, n);
    }
  }

  lemma GroupAtEnd(s: bytes)
    requires Varint(s) == None || Varint(s).value.0 % 8 == 4
    ensures SkipGroup(s) == if Varint(s) == None then None else Some(Varint(s).value.1)
  {
  }

  lemma GroupAtField(s: bytes)
    requires Varint(s).Some? && Varint(s).value.0 % 8 != 4
    ensures Skip(s) == None ==> SkipGroup(s) == None
    ensures Skip(s).Some? ==> SkipGroup(s) == Advance(Skip(s).value, SkipGroup(s[Skip(s).value..]))
  {
  }

  function Advance(d: nat, r: Option<nat>): Option<nat> {
    match r
    case None => None
    case Some(k) => Some(d + k)
  }

  // ----- One turn of an Unmarshal loop -----

  /** Tag of the field at `pre`, with the checks every Unmarshal makes. */
  method ReadTag(dAtA: bytes, pre: nat) returns (ok: bool, num: int, wireType: nat, iNdEx: nat)
    requires pre < |dAtA|
    ensures pre <= iNdEx <= |dAtA|
    ensures ok <==> Tag(dAtA[pre..]).Some?
    ensures ok ==> Tag(dAtA[pre..]) == Some((num, wireType, iNdEx - pre))
  {
    var wire;
    ok, wire, iNdEx := ReadVarint(dAtA, pre);
    num, wireType := FieldNumber(wire), wire % 8;
    ok := ok && wireType != 4 && num > 0;
  }

  /** The length-delimited payload behind the tag that starts at `pre` and ends at `i`. */
  method ReadDelimited(dAtA: bytes, ghost pre: nat, ghost num: int, i: nat)
    returns (ok: bool, body: bytes, post: nat)
    requires pre <= i <= |dAtA| < TWO_63
    requires Tag(dAtA[pre..]) == Some((num, 2, i - pre))
    ensures ok <==> NextField(dAtA[pre..]).Some?
    ensures ok ==> NextField(dAtA[pre..]) == Some((Field(num, 2, body), post - pre))
    ensures ok ==> pre < post <= |dAtA| && |body| < |dAtA|
  {
    DelimitedInput(dAtA, pre, num, i);
    var wire, iNdEx;
    body, post := [], 0;
    ok, wire, iNdEx := ReadVarint(dAtA, i);
    if !ok {
      return;
    }
    var length := AsInt64(wire);
    if length < 0 {
      return false, [], 0;
    }
    var postIndex := Add64(iNdEx, length);
    if postIndex < 0 || postIndex > |dAtA| {
      return false, [], 0;
    }
    body, post := dAtA[iNdEx..postIndex], postIndex;
  }

  /** A length-delimited field is readable exactly when its body lies inside the input. */
  lemma DelimitedInput(dAtA: bytes, pre: nat, num: int, i: nat)
    requires pre <= i <= |dAtA| && Tag(dAtA[pre..]) == Some((num, 2, i - pre))
    ensures Varint(dAtA[i..]) == None ==> NextField(dAtA[pre..]) == None
    ensures Varint(dAtA[i..]).Some? ==>
              var (len, j) := Varint(dAtA[i..]).value;
              var end := i + j + len;
              NextField(dAtA[pre..]) ==
              if end > |dAtA| then None else Some((Field(num, 2, dAtA[i + j..end]), end - pre))
  {
    var s := dAtA[pre..];
    DropTwice(dAtA, pre, i);
    if Varint(dAtA[i..]) == None {
      NoLength(s, num, i - pre);
    } else {
      var (len, j) := Varint(dAtA[i..]).value;
      var end := i + j + len;
      DelimitedLength(s, num, i - pre, len, j);
      if end <= |dAtA| {
        SliceOfDrop(dAtA, i, i + j, end);
        DelimitedField(s, num, i - pre, len, j);
      }
    }
  }

  lemma NoLength(s: bytes, num: int, n: nat)
    requires Tag(s) == Some((num, 2, n)) && Varint(s[n..]) == None
    ensures NextField(s) == None
  {
  }

  lemma DelimitedLength(s: bytes, num: int, n: nat, len: nat, j: nat)
    requires Tag(s) == Some((num, 2, n)) && Varint(s[n..]) == Some((len, j))
    ensures NextField(s).Some? <==> n + j + len <= |s|
  {
  }

  /** The field whose tag takes `n` bytes and whose length prefix takes `j` bytes and reads `len`. */
  lemma DelimitedField(s: bytes, num: int, n: nat, len: nat, j: nat)
    requires Tag(s) == Some((num, 2, n))
    requires Varint(s[n..]) == Some((len, j)) && n + j + len <= |s|
    ensures NextField(s) == Some((Field(num, 2, s[n..][j..j + len]), n + j + len))
  {
    var p := s[n..];
    assert s[n..n + (j + len)] == p[..j + len];
    RawVarintPrefix(p, j + len, 10);
    assert Varint(p[..j + len]) == Varint(p);
    assert p[..j + len][j..] == p[j..j + len];
  }

  /** Cutting the input behind a varint does not change it. */
  lemma {:induction false} RawVarintPrefix(s: bytes, k: nat, budget: nat)
    requires RawVarint(s, budget).Some? && RawVarint(s, budget).value.1 <= k <= |s|
    ensures RawVarint(s[..k], budget) == RawVarint(s, budget)
    decreases |s|
  {
    if s[0] >= 128 {
      assert s[..k][1..] == s[1..][..k - 1];
      RawVarintPrefix(s[1..], k - 1, budget - 1);
    }
  }

  /** The default case of every Unmarshal: skip the whole field from its tag on. */
  method SkipField(dAtA: bytes, pre: nat) returns (ok: bool, post: nat)
    requires pre < |dAtA| < TWO_63 && Tag(dAtA[pre..]).Some?
    ensures ok <==> NextField(dAtA[pre..]).Some?
    ensures ok ==> pre < post <= |dAtA| && NextField(dAtA[pre..]).value.1 == post - pre
  {
    var valid, skippy := SkipCodec(dAtA[pre..]);
    post := 0;
    if !valid || skippy < 0 {
      return false, 0;
    }
    var iNdEx := Add64(pre, skippy);
    if iNdEx < 0 || iNdEx > |dAtA| {
      return false, 0;
    }
    return true, iNdEx;
  }

  lemma DecodeFirst<M>(step: (M, Field) -> Option<M>, m: M, s: bytes, f: Field, k: nat)
    requires NextField(s) == Some((f, k))
    ensures Decode(step, m, s) ==
            match step(m, f) case None => None case Some(m') => Decode(step, m', s[k..])
  {
  }

  /** How the decoding of the unread input moves over its first field. */
  lemma DecodeNext<M>(step: (M, Field) -> Option<M>, m: M, dAtA: bytes, pre: nat, f: Field, post: nat)
    requires pre < post <= |dAtA| && NextField(dAtA[pre..]) == Some((f, post - pre))
    ensures Decode(step, m, dAtA[pre..]) ==
            match step(m, f) case None => None case Some(m') => Decode(step, m', dAtA[post..])
  {
    DropTwice(dAtA, pre, post);
    DecodeFirst(step, m, dAtA[pre..], f, post - pre);
  }

  lemma DropTwice(s: bytes, i: nat, j: nat)
    requires i <= j <= |s|
    ensures s[i..][j - i..] == s[j..]
  {
  }

  lemma SliceOfDrop(s: bytes, i: nat, j: nat, k: nat)
    requires i <= j <= k <= |s|
    ensures s[i..][j - i..k - i] == s[j..k]
  {
  }

  /** A field whose wire type the message does not take makes decoding fail. */
  lemma DecodeRejects<M>(step: (M, Field) -> Option<M>, m: M, dAtA: bytes, pre: nat, num: int, wt: nat)
    requires pre < |dAtA| && Tag(dAtA[pre..]).Some?
    requires Tag(dAtA[pre..]).value.0 == num && Tag(dAtA[pre..]).value.1 == wt
    requires forall b: bytes :: step(m, Field(num, wt, b)) == None
    ensures Decode(step, m, dAtA[pre..]) == None
  {
    if NextField(dAtA[pre..]).Some? {
      var (f, k) := NextField(dAtA[pre..]).value;
      assert f == Field(num, wt, f.body);
      DecodeFirst(step, m, dAtA[pre..], f, k);
    }
  }

  /** An unreadable field makes decoding fail. */
  lemma DecodeFails<M>(step: (M, Field) -> Option<M>, m: M, s: bytes)
    requires s != [] && NextField(s) == None
    ensures Decode(step, m, s) == None
  {
  }

  /** The numbers a message dispatches on: those must be length-delimited, all others are ignored. */
  ghost predicate Dispatches<M>(step: (M, Field) -> Option<M>, m: M, known: set<int>) {
    && (forall n, wt, b :: n in known && wt != 2 ==> step(m, Field(n, wt, b)) == None)
    && (forall n, wt, b :: n !in known ==> step(m, Field(n, wt, b)) == Some(m))
  }

  /**
   One turn of an Unmarshal loop up to the assignment: a field that is dispatched on is handed over as
   its body, any other field is skipped from its tag on.
   */
  method ReadField<M>(dAtA: bytes, preIndex: nat, known: set<int>,
                      ghost step: (M, Field) -> Option<M>, ghost m: M)
    returns (ok: bool, fieldNum: int, body: bytes, post: nat)
    requires preIndex < |dAtA| < TWO_63
    requires Dispatches(step, m, known)
    ensures preIndex <= post <= |dAtA|
    ensures !ok ==> Decode(step, m, dAtA[preIndex..]) == None
    ensures ok ==> preIndex < post && |body| < |dAtA|
    ensures ok && fieldNum in known ==>
              Decode(step, m, dAtA[preIndex..]) ==
              match step(m, Field(fieldNum, 2, body))
              case None => None
              case Some(m') => Decode(step, m', dAtA[post..])
    ensures ok && fieldNum !in known ==>
              Decode(step, m, dAtA[preIndex..]) == Decode(step, m, dAtA[post..])
  {
    ghost var s := dAtA[preIndex..];
    var wireType;
    ok, fieldNum, wireType, post := ReadTag(dAtA, preIndex);
    body := [];
    if !ok {
      DecodeFails(step, m, s);
      return;
    }
    if fieldNum in known {
      if wireType != 2 {
        DecodeRejects(step, m, dAtA, preIndex, fieldNum, wireType);
        return false, fieldNum, [], post;
      }
      var end;
      ok, body, end := ReadDelimited(dAtA, preIndex, fieldNum, post);
      if !ok {
        DecodeFails(step, m, s);
        return;
      }
      DecodeNext(step, m, dAtA, preIndex, Field(fieldNum, 2, body), end);
      post := end;
    } else {
      var end;
      ok, end := SkipField(dAtA, preIndex);
      if !ok {
        DecodeFails(step, m, s);
        return;
      }
      var f := NextField(s).value.0;
      assert f == Field(fieldNum, f.wireType, f.body);
      DecodeNext(step, m, dAtA, preIndex, f, end);
      post := end;
    }
  }
}
