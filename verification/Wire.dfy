/**
 The wire format of the Protocol Buffers Encoding guide as the generated decoders read it:
 base-128 varints, field tags, the length of one field, and decoding as a fold over fields.
 Everything here is a value-level specification; WireCode holds the loops that refine it.
 A decoder that returns an error is `None`.
 */
module Wire {
  type byte = b: int | 0 <= b < 256
  type bytes = seq<byte>

  const TWO_31 := 0x8000_0000
  const TWO_32 := 0x1_0000_0000
  const TWO_63 := 0x8000_0000_0000_0000
  const TWO_64 := 0x1_0000_0000_0000_0000

  type uint64 = n: int | 0 <= n < TWO_64
  type int64 = n: int | -TWO_63 <= n < TWO_63

  datatype Option<+T> = None | Some(value: T)

  /** Two's complement addition of two Go `int`s. */
  function Add64(a: int64, b: int64): int64 {
    if a + b >= TWO_63 then a + b - TWO_64
    else if a + b < -TWO_63 then a + b + TWO_64
    else a + b
  }

  // ----- Base 128 Varints -----

  function EncVarint(v: nat): (s: bytes)
    ensures |s| >= 1
  {
    if v < 128 then [v] else [v % 128 + 128] + EncVarint(v / 128)
  }

  /** Value and length of the varint at the front of `s`, giving up after `budget` bytes. */
  function RawVarint(s: bytes, budget: nat): (r: Option<(nat, nat)>)
    ensures r.Some? ==> 1 <= r.value.1 <= |s| && r.value.1 <= budget
  {
    if budget == 0 || s == [] then None
    else if s[0] < 128 then Some((s[0], 1))
    else match RawVarint(s[1..], budget - 1)
         case None => None
         case Some((v, n)) => Some((s[0] - 128 + 128 * v, n + 1))
  }

  /** At most ten bytes are read and the value is cut to 64 bits. */
  function Varint(s: bytes): (r: Option<(uint64, nat)>)
    ensures r.Some? ==> 1 <= r.value.1 <= |s| && r.value.1 <= 10
  {
    match RawVarint(s, 10)
    case None => None
    case Some((v, n)) => Some((v % TWO_64, n))
  }

  function Pow128(k: nat): (r: nat)
    ensures r > 0
  {
    if k == 0 then 1 else 128 * Pow128(k - 1)
  }

  lemma {:induction false} VarintLength(v: nat, k: nat)
    requires 1 <= k && v < Pow128(k)
    ensures |EncVarint(v)| <= k
  {
    if v >= 128 {
      VarintLength(v / 128, k - 1);
    }
  }

  lemma {:induction false} RawVarintRoundTrip(v: nat, rest: bytes, budget: nat)
    requires |EncVarint(v)| <= budget
    ensures RawVarint(EncVarint(v) + rest, budget) == Some((v, |EncVarint(v)|))
  {
    var s := EncVarint(v) + rest;
    if v >= 128 {
      assert s[1..] == EncVarint(v / 128) + rest;
      RawVarintRoundTrip(v / 128, rest, budget - 1);
    }
  }

  /** Every 64-bit value takes 1 to 10 bytes and is read back whatever follows it. */
  lemma VarintRoundTrip(v: uint64, rest: bytes)
    ensures 1 <= |EncVarint(v)| <= 10
    ensures Varint(EncVarint(v) + rest) == Some((v, |EncVarint(v)|))
  {
    assert Pow128(10) == 1024 * TWO_64 / 16 by {
      assert Pow128(5) == 0x8_0000_0000;
      assert Pow128(9) == TWO_63;
    }
    VarintLength(v, 10);
    RawVarintRoundTrip(v, rest, 10);
  }

  lemma {:induction false} RawVarintStable(x: bytes, y: bytes, budget: nat)
    requires RawVarint(x, budget).Some?
    ensures RawVarint(x + y, budget) == RawVarint(x, budget)
  {
    assert (x + y)[0] == x[0];
    if x[0] >= 128 {
      assert (x + y)[1..] == x[1..] + y;
      RawVarintStable(x[1..], y, budget - 1);
    }
  }

  lemma VarintStable(x: bytes, y: bytes)
    requires Varint(x).Some?
    ensures Varint(x + y) == Varint(x)
  {
    RawVarintStable(x, y, 10);
  }

  /** The number that groups of seven bits stand for, least significant group first. */
  function Base128(s: bytes): nat {
    if s == [] then 0 else s[0] % 128 + 128 * Base128(s[1..])
  }

  /** Every byte but the last has its top bit set. */
  ghost predicate Continues(s: bytes) {
    s != [] && s[|s| - 1] < 128 && forall i | 0 <= i < |s| - 1 :: s[i] >= 128
  }

  /** A varint is written in groups of seven bits, and no shorter one would do. */
  lemma {:induction false} VarintBytes(v: nat)
    ensures Continues(EncVarint(v)) && Base128(EncVarint(v)) == v
    ensures |EncVarint(v)| > 1 ==> EncVarint(v)[|EncVarint(v)| - 1] != 0
    decreases v
  {
    if v >= 128 {
      var more := EncVarint(v / 128);
      VarintBytes(v / 128);
      assert EncVarint(v)[1..] == more;
      forall i | 0 <= i < |EncVarint(v)| - 1 ensures EncVarint(v)[i] >= 128 {
        if i > 0 { assert EncVarint(v)[i] == more[i - 1]; }
      }
      assert EncVarint(v)[|EncVarint(v)| - 1] == more[|more| - 1];
    } else {
      assert EncVarint(v)[1..] == [];
    }
  }

  lemma {:induction false} RawVarintReads(s: bytes, rest: bytes, budget: nat)
    requires Continues(s)
    ensures RawVarint(s + rest, budget) == if |s| <= budget then Some((Base128(s), |s|)) else None
    decreases |s|
  {
    if |s| > 1 && budget > 0 {
      var more := s[1..];
      assert forall i | 0 <= i < |more| :: more[i] == s[i + 1];
      assert (s + rest)[1..] == more + rest;
      RawVarintReads(more, rest, budget - 1);
    } else if |s| == 1 {
      assert s[1..] == [];
    }
  }

  lemma {:induction false} RawVarintUnfinished(s: bytes, budget: nat)
    requires forall i | 0 <= i < |s| :: s[i] >= 128
    ensures RawVarint(s, budget) == None
    decreases |s|
  {
    if s != [] && budget > 0 {
      RawVarintUnfinished(s[1..], budget - 1);
    }
  }

  /** What any varint reads as, shortest form or not: ten bytes at most, cut to 64 bits; else nothing. */
  lemma VarintReads(s: bytes, rest: bytes)
    ensures Continues(s) ==>
              Varint(s + rest) == if |s| <= 10 then Some((Base128(s) % TWO_64, |s|)) else None
    ensures (forall i | 0 <= i < |s| :: s[i] >= 128) ==> Varint(s) == None
  {
    if Continues(s) {
      RawVarintReads(s, rest, 10);
    }
    if forall i | 0 <= i < |s| :: s[i] >= 128 {
      RawVarintUnfinished(s, 10);
    }
  }

  // ----- Message Structure: how long is the field at the front of the input -----

  /** Length of the payload of wire type `wt` at the front of `s`; a group ends with its end tag. */
  function SkipPayload(wt: nat, s: bytes): (r: Option<nat>)
    ensures r.Some? ==> r.value <= |s|
    decreases |s|, 2
  {
    match wt
    case 0 => (match Varint(s) case None => None case Some((_, k)) => Some(k))
    case 1 => if 8 <= |s| then Some(8) else None
    case 2 => (match Varint(s)
               case None => None
               case Some((len, k)) =>
                 if k + len <= |s| then Some(k + len) else None)
    case 3 => SkipGroup(s)
    case 4 => Some(0)
    case 5 => if 4 <= |s| then Some(4) else None
    case _ => None
  }

  /** Length of the complete field (tag included) at the front of `s`. */
  function Skip(s: bytes): (r: Option<nat>)
    ensures r.Some? ==> 1 <= r.value <= |s|
    decreases |s|, 0
  {
    match Varint(s)
    case None => None
    case Some((tag, n)) =>
      match SkipPayload(tag % 8, s[n..])
      case None => None
      case Some(k) => Some(n + k)
  }

  /** Length of the fields up to and including the end-group tag that closes the group. */
  function SkipGroup(s: bytes): (r: Option<nat>)
    ensures r.Some? ==> 1 <= r.value <= |s|
    decreases |s|, 1
  {
    match Varint(s)
    case None => None
    case Some((tag, n)) =>
      if tag % 8 == 4 then Some(n)
      else match Skip(s)
           case None => None
           case Some(k) => (match SkipGroup(s[k..]) case None => None case Some(j) => Some(k + j))
  }

  lemma {:induction false} SkipPayloadStable(wt: nat, x: bytes, y: bytes)
    requires SkipPayload(wt, x).Some?
    ensures SkipPayload(wt, x + y) == SkipPayload(wt, x)
    decreases |x|, 2
  {
    if wt == 0 || wt == 2 {
      VarintStable(x, y);
    } else if wt == 3 {
      SkipGroupStable(x, y);
    }
  }

  lemma {:induction false} SkipStable(x: bytes, y: bytes)
    requires Skip(x).Some?
    ensures Skip(x + y) == Skip(x)
    decreases |x|, 0
  {
    VarintStable(x, y);
    var (tag, n) := Varint(x).value;
    assert (x + y)[n..] == x[n..] + y;
    SkipPayloadStable(tag % 8, x[n..], y);
  }

  lemma {:induction false} SkipGroupStable(x: bytes, y: bytes)
    requires SkipGroup(x).Some?
    ensures SkipGroup(x + y) == SkipGroup(x)
    decreases |x|, 1
  {
    VarintStable(x, y);
    if Varint(x).value.0 % 8 != 4 {
      SkipStable(x, y);
      var k := Skip(x).value;
      assert (x + y)[k..] == x[k..] + y;
      SkipGroupStable(x[k..], y);
    }
  }

  // ----- Fields -----

  /** One decoded field: its number, its wire type and, for types 0 and 2, its payload. */
  datatype Field = Field(num: int, wireType: nat, body: bytes)

  /** `int32(wire >> 3)` */
  function FieldNumber(tag: uint64): int {
    var n := tag / 8 % TWO_32;
    if n < TWO_31 then n else n - TWO_32
  }

  /** Field number, wire type and tag length at the front of `s`, if the decoders accept that tag. */
  function Tag(s: bytes): (r: Option<(int, nat, nat)>)
    ensures r.Some? ==> 1 <= r.value.2 <= |s| && r.value.0 > 0 && r.value.1 < 8
  {
    match Varint(s)
    case None => None
    case Some((tag, n)) =>
      if tag % 8 == 4 || FieldNumber(tag) <= 0 then None else Some((FieldNumber(tag), tag % 8, n))
  }

  /** The payload without the length prefix of a length-delimited record. */
  function PayloadBody(wt: nat, p: bytes): (r: bytes)
    ensures |r| <= |p|
  {
    if wt == 2 && Varint(p).Some? then p[Varint(p).value.1..] else p
  }

  /** The field at the front of `s` and the number of bytes it takes. */
  function NextField(s: bytes): (r: Option<(Field, nat)>)
    ensures r.Some? ==> 1 <= r.value.1 <= |s| && |r.value.0.body| < |s|
  {
    match Tag(s)
    case None => None
    case Some((num, wt, n)) =>
      match SkipPayload(wt, s[n..])
      case None => None
      case Some(k) => Some((Field(num, wt, PayloadBody(wt, s[n..n + k])), n + k))
  }

  lemma NextFieldStable(x: bytes, y: bytes)
    requires NextField(x).Some?
    ensures NextField(x + y) == NextField(x)
  {
    VarintStable(x, y);
    var (num, wt, n) := Tag(x).value;
    assert Tag(x + y) == Tag(x);
    assert (x + y)[n..] == x[n..] + y;
    SkipPayloadStable(wt, x[n..], y);
    var k := n + SkipPayload(wt, x[n..]).value;
    assert (x + y)[n..k] == x[n..k];
  }

  // ----- Decoding -----

  /** Decoding into `m`: every message type is its own step over one field. */
  function Decode<M>(step: (M, Field) -> Option<M>, m: M, s: bytes): Option<M>
    decreases |s|
  {
    if s == [] then Some(m)
    else match NextField(s)
         case None => None
         case Some((f, k)) =>
           match step(m, f)
           case None => None
           case Some(m') => Decode(step, m', s[k..])
  }

  /** Decoding is an action of byte strings under concatenation. */
  lemma {:induction false} DecodeConcat<M>(step: (M, Field) -> Option<M>, m: M, x: bytes, y: bytes)
    requires Decode(step, m, x).Some?
    ensures Decode(step, m, x + y) == Decode(step, Decode(step, m, x).value, y)
    decreases |x|
  {
    if x == [] {
      assert x + y == y;
    } else {
      NextFieldStable(x, y);
      var (f, k) := NextField(x).value;
      assert (x + y)[k..] == x[k..] + y;
      DecodeConcat(step, step(m, f).value, x[k..], y);
    }
  }

  /** A whole field that the message type ignores changes nothing, wherever it stands. */
  lemma UnknownFieldTransparent<M>(step: (M, Field) -> Option<M>, m: M, x: bytes, u: bytes, y: bytes)
    requires Decode(step, m, x).Some?
    requires NextField(u).Some? && NextField(u).value.1 == |u|
    requires forall n: M :: step(n, NextField(u).value.0) == Some(n)
    ensures Decode(step, m, x + u + y) == Decode(step, m, x + y)
  {
    var n := Decode(step, m, x).value;
    assert Decode(step, n, u) == Some(n) by {
      assert u[|u|..] == [];
    }
    DecodeConcat(step, m, x, y);
    DecodeConcat(step, m, x, u);
    DecodeConcat(step, m, x + u, y);
  }

  /** A tag with wire type 4, 6 or 7, or with a number that is no positive int32, ends every decoding. */
  lemma IllegalTagFails<M>(step: (M, Field) -> Option<M>, m: M, tag: uint64, rest: bytes)
    requires tag % 8 in {4, 6, 7} || tag / 8 % 0x1_0000_0000 == 0 || tag / 8 % 0x1_0000_0000 >= 0x8000_0000
    ensures Decode(step, m, EncVarint(tag) + rest) == None
  {
    VarintRoundTrip(tag, rest);
  }

  /** A field that is cut short ends every decoding. */
  lemma TruncatedFieldFails<M>(step: (M, Field) -> Option<M>, m: M, u: bytes, c: nat)
    requires NextField(u).Some? && NextField(u).value.1 == |u| && 0 < c < |u|
    ensures Decode(step, m, u[..c]) == None
  {
    assert u[..c] + u[c..] == u;
    if NextField(u[..c]).Some? {
      NextFieldStable(u[..c], u[c..]);
    }
  }

  // ----- Length-Delimited Records -----

  /** A length-delimited record to write. */
  datatype Rec = Rec(num: nat, body: bytes)

  function EncTag(num: nat): bytes {
    EncVarint(num * 8 + 2)
  }

  function EncRec(r: Rec): (s: bytes)
    ensures |s| > |r.body|
  {
    EncTag(r.num) + EncVarint(|r.body|) + r.body
  }

  function EncAll(rs: seq<Rec>): (s: bytes)
    decreases |rs|
  {
    if rs == [] then [] else EncRec(rs[0]) + EncAll(rs[1..])
  }

  lemma {:induction false} EncAllConcat(a: seq<Rec>, b: seq<Rec>)
    ensures EncAll(a + b) == EncAll(a) + EncAll(b)
    decreases |a|
  {
    if a == [] {
      assert a + b == b;
    } else {
      assert (a + b)[1..] == a[1..] + b;
      EncAllConcat(a[1..], b);
    }
  }

  /** Field numbers the Encoding guide allows. */
  predicate FieldNum(n: int) {
    1 <= n < 0x2000_0000
  }

  ghost predicate Writable(rs: seq<Rec>) {
    forall r | r in rs :: FieldNum(r.num)
  }

  lemma TagParts(num: nat, wt: nat)
    requires wt < 8
    ensures (num * 8 + wt) / 8 == num && (num * 8 + wt) % 8 == wt
    ensures num * 8 + wt < TWO_64 && FieldNum(num) ==> FieldNumber(num * 8 + wt) == num
  {
  }

  lemma NextFieldOfRec(r: Rec, rest: bytes)
    requires FieldNum(r.num) && |r.body| < TWO_63
    ensures NextField(EncRec(r) + rest) == Some((Field(r.num, 2, r.body), |EncRec(r)|))
  {
    var tag := EncTag(r.num);
    var len := EncVarint(|r.body|);
    var s := EncRec(r) + rest;
    TagOfRec(r, rest);
    SkipOfBody(r.body, rest);
    PayloadOfRec(r.body);
    BodyOfRec(tag, len, r.body, rest);
  }

  lemma BodyOfRec(tag: bytes, len: bytes, body: bytes, rest: bytes)
    ensures var s := tag + len + body + rest;
            s[|tag|..] == len + (body + rest) && s[|tag|..|tag + len + body|] == len + body
  {
  }

  lemma SkipOfBody(body: bytes, rest: bytes)
    requires |body| < TWO_63
    ensures SkipPayload(2, EncVarint(|body|) + (body + rest)) == Some(|EncVarint(|body|)| + |body|)
  {
    VarintRoundTrip(|body|, body + rest);
  }

  lemma TagOfRec(r: Rec, rest: bytes)
    requires FieldNum(r.num)
    ensures Tag(EncRec(r) + rest) == Some((r.num as int, 2, |EncTag(r.num)|))
  {
    var more := EncVarint(|r.body|) + r.body + rest;
    assert EncRec(r) + rest == EncTag(r.num) + more;
    VarintRoundTrip(r.num * 8 + 2, more);
    TagParts(r.num, 2);
  }

  /** Decoding from a written record on. */
  lemma DecodeRec<M>(step: (M, Field) -> Option<M>, m: M, r: Rec, rest: bytes)
    requires FieldNum(r.num) && |r.body| < TWO_63
    ensures Decode(step, m, EncRec(r) + rest) ==
            match step(m, Field(r.num, 2, r.body)) case None => None case Some(m') => Decode(step, m', rest)
  {
    NextFieldOfRec(r, rest);
    assert (EncRec(r) + rest)[|EncRec(r)|..] == rest;
  }

  /** A record behind the bytes of its tag. */
  function Tagged(tag: bytes, body: bytes): bytes {
    tag + EncVarint(|body|) + body
  }

  /** A field that is written only when it is not empty. */
  function TaggedIfAny(tag: bytes, body: bytes): bytes {
    if body == [] then [] else Tagged(tag, body)
  }

  /** One record for each entry, empty entries included. */
  function TaggedEach(tag: bytes, bs: seq<bytes>): bytes
    decreases |bs|
  {
    if bs == [] then [] else Tagged(tag, bs[0]) + TaggedEach(tag, bs[1..])
  }

  lemma ScalarIsTagged(num: nat, b: bytes)
    ensures EncAll(Scalar(num, b)) == TaggedIfAny(EncTag(num), b)
  {
    if b != [] {
      assert EncAll([Rec(num, b)]) == EncRec(Rec(num, b)) + EncAll([]);
    }
  }

  lemma {:induction false} RepeatedIsTagged(num: nat, bs: seq<bytes>)
    ensures EncAll(Repeated(num, bs)) == TaggedEach(EncTag(num), bs)
    decreases |bs|
  {
    if bs != [] {
      RepeatedIsTagged(num, bs[1..]);
      assert Repeated(num, bs)[1..] == Repeated(num, bs[1..]);
    }
  }

  /** The tag bytes of the field numbers up to 7, for length-delimited fields. */
  lemma SmallTags()
    ensures EncTag(1) == [0x0a] && EncTag(2) == [0x12] && EncTag(3) == [0x1a] && EncTag(4) == [0x22]
    ensures EncTag(5) == [0x2a] && EncTag(6) == [0x32] && EncTag(7) == [0x3a]
  {
  }

  lemma TagByte(tag: byte)
    requires tag in {0x0a, 0x12, 0x1a, 0x22, 0x2a, 0x32, 0x3a}
    ensures 1 <= tag / 8 <= 7 && EncTag(tag / 8) == [tag]
  {
    assert tag / 8 * 8 + 2 == tag;
  }

  lemma PayloadOfRec(body: bytes)
    requires |body| < TWO_63
    ensures PayloadBody(2, EncVarint(|body|) + body) == body
  {
    VarintRoundTrip(|body|, body);
    assert (EncVarint(|body|) + body)[|EncVarint(|body|)|..] == body;
  }

  function Fold<M>(step: (M, Field) -> Option<M>, m: M, rs: seq<Rec>): Option<M>
    decreases |rs|
  {
    if rs == [] then Some(m)
    else match step(m, Field(rs[0].num, 2, rs[0].body))
         case None => None
         case Some(m') => Fold(step, m', rs[1..])
  }

  lemma {:induction false} FoldConcat<M>(step: (M, Field) -> Option<M>, m: M, a: seq<Rec>, b: seq<Rec>)
    requires Fold(step, m, a).Some?
    ensures Fold(step, m, a + b) == Fold(step, Fold(step, m, a).value, b)
    decreases |a|
  {
    if a == [] {
      assert a + b == b;
    } else {
      assert (a + b)[1..] == a[1..] + b;
      FoldConcat(step, step(m, Field(a[0].num, 2, a[0].body)).value, a[1..], b);
    }
  }

  /** Decoding written records is folding the step over them. */
  lemma {:induction false} DecodeOfRecs<M>(step: (M, Field) -> Option<M>, m: M, rs: seq<Rec>)
    requires Writable(rs) && |EncAll(rs)| < TWO_63
    ensures Decode(step, m, EncAll(rs)) == Fold(step, m, rs)
    decreases |rs|
  {
    if rs != [] {
      var rest := EncAll(rs[1..]);
      NextFieldOfRec(rs[0], rest);
      assert EncAll(rs)[|EncRec(rs[0])|..] == rest;
      var next := step(m, Field(rs[0].num, 2, rs[0].body));
      if next.Some? {
        DecodeOfRecs(step, next.value, rs[1..]);
      }
    }
  }

  lemma FoldThen<M>(step: (M, Field) -> Option<M>, m: M, a: seq<Rec>, b: seq<Rec>, m1: M, m2: M)
    requires Fold(step, m, a) == Some(m1) && Fold(step, m1, b) == Some(m2)
    ensures Fold(step, m, a + b) == Some(m2)
  {
    FoldConcat(step, m, a, b);
  }

  /** A scalar or optional field is written when it is not empty. */
  function Scalar(num: nat, b: bytes): seq<Rec> {
    if b == [] then [] else [Rec(num, b)]
  }

  /** A repeated field is written entry by entry, empty entries included. */
  function Repeated(num: nat, bs: seq<bytes>): seq<Rec>
    decreases |bs|
  {
    if bs == [] then [] else [Rec(num, bs[0])] + Repeated(num, bs[1..])
  }

  /** Folding a repeated field goes through one message per entry. */
  lemma {:induction false} FoldRepeated<M>(step: (M, Field) -> Option<M>, num: nat, bs: seq<bytes>, ms: seq<M>)
    requires |ms| == |bs| + 1
    requires forall i | 0 <= i < |bs| :: step(ms[i], Field(num, 2, bs[i])) == Some(ms[i + 1])
    ensures Fold(step, ms[0], Repeated(num, bs)) == Some(ms[|bs|])
    decreases |bs|
  {
    if bs != [] {
      assert step(ms[0], Field(num, 2, bs[0])) == Some(ms[1]);
      FoldRepeated(step, num, bs[1..], ms[1..]);
      assert Repeated(num, bs)[1..] == Repeated(num, bs[1..]);
    }
  }

  lemma {:induction false} RepeatedWritable(num: nat, bs: seq<bytes>)
    requires FieldNum(num)
    ensures Writable(Repeated(num, bs))
    decreases |bs|
  {
    if bs != [] {
      RepeatedWritable(num, bs[1..]);
    }
  }

  /** Every entry of a repeated field is shorter than the message it is written in. */
  lemma {:induction false} RepeatedBodiesFit(before: seq<Rec>, num: nat, bs: seq<bytes>)
    ensures forall b | b in bs :: |b| < |EncAll(before + Repeated(num, bs))|
    decreases |bs|
  {
    if bs != [] {
      var r := Rec(num, bs[0]);
      RepeatedBodiesFit(before + [r], num, bs[1..]);
      assert before + Repeated(num, bs) == before + [r] + Repeated(num, bs[1..]);
      EncAllConcat(before + [r], Repeated(num, bs[1..]));
      EncAllConcat(before, [r]);
      assert EncAll([r]) == EncRec(r) + EncAll([]);
      assert forall b | b in bs :: b == bs[0] || b in bs[1..];
    }
  }

  /** Last One Wins, where an empty value is not written at all. */
  function Pick(older: bytes, newer: bytes): bytes {
    if newer == [] then older else newer
  }

  // ----- Every kind of complete field, groups included -----

  /** The payload of a field, independently of how it is skipped. */
  datatype Payload =
    | VarintPayload(v: uint64)
    | Fixed64(b: bytes)
    | Delimited(body: bytes)
    | Group(fields: GroupFields)
    | Fixed32(b: bytes)

  datatype GroupFields = End(num: nat) | More(num: nat, payload: Payload, rest: GroupFields)

  function WireTypeOf(p: Payload): nat {
    match p
    case VarintPayload(_) => 0
    case Fixed64(_) => 1
    case Delimited(_) => 2
    case Group(_) => 3
    case Fixed32(_) => 5
  }

  const MAX_TAG_NUM := 0x2000_0000_0000_0000

  /** Sizes the wire type prescribes, at every nesting depth. */
  predicate WellFormed(p: Payload) {
    match p
    case VarintPayload(_) => true
    case Fixed64(b) => |b| == 8
    case Delimited(body) => |body| < TWO_63
    case Group(fields) => WellFormedFields(fields)
    case Fixed32(b) => |b| == 4
  }

  predicate WellFormedFields(fields: GroupFields) {
    fields.num < MAX_TAG_NUM &&
    (fields.More? ==> WellFormed(fields.payload) && WellFormedFields(fields.rest))
  }

  function EncPayload(p: Payload): bytes
    decreases p, 0
  {
    match p
    case VarintPayload(v) => EncVarint(v)
    case Fixed64(b) => b
    case Delimited(body) => EncVarint(|body|) + body
    case Group(fields) => EncGroup(fields)
    case Fixed32(b) => b
  }

  function EncField(num: nat, p: Payload): bytes
    decreases p, 1
  {
    EncVarint(num * 8 + WireTypeOf(p)) + EncPayload(p)
  }

  function EncGroup(fields: GroupFields): bytes
    decreases fields, 0
  {
    match fields
    case End(num) => EncVarint(num * 8 + 4)
    case More(num, p, rest) => EncField(num, p) + EncGroup(rest)
  }

  lemma {:induction false} SkipPayloadExact(p: Payload, rest: bytes)
    requires WellFormed(p)
    ensures SkipPayload(WireTypeOf(p), EncPayload(p) + rest) == Some(|EncPayload(p)|)
    decreases p, 0
  {
    match p {
      case VarintPayload(v) => VarintRoundTrip(v, rest);
      case Delimited(body) =>
        assert EncPayload(p) + rest == EncVarint(|body|) + (body + rest);
        VarintRoundTrip(|body|, body + rest);
      case Group(fields) => SkipGroupExact(fields, rest);
      case _ =>
    }
  }

  /** The tag of a written field, whatever follows. */
  lemma TagExact(num: nat, p: Payload, rest: bytes)
    requires num < MAX_TAG_NUM
    ensures var tag := num * 8 + WireTypeOf(p);
            Varint(EncField(num, p) + rest) == Some((tag, |EncVarint(tag)|)) && tag % 8 == WireTypeOf(p)
    ensures (EncField(num, p) + rest)[|EncVarint(num * 8 + WireTypeOf(p))|..] == EncPayload(p) + rest
  {
    var tag := num * 8 + WireTypeOf(p);
    TagParts(num, WireTypeOf(p));
    assert EncField(num, p) + rest == EncVarint(tag) + (EncPayload(p) + rest);
    VarintRoundTrip(tag, EncPayload(p) + rest);
  }

  lemma SkipByParts(s: bytes, tag: uint64, n: nat, k: nat)
    requires Varint(s) == Some((tag, n)) && SkipPayload(tag % 8, s[n..]) == Some(k)
    ensures Skip(s) == Some(n + k)
  {
  }

  /** Skipping consumes exactly the field that was written, nested groups included. */
  lemma {:induction false} SkipExact(num: nat, p: Payload, rest: bytes)
    requires num < MAX_TAG_NUM && WellFormed(p)
    ensures Skip(EncField(num, p) + rest) == Some(|EncField(num, p)|)
    decreases p, 1
  {
    var tag := num * 8 + WireTypeOf(p);
    TagExact(num, p, rest);
    SkipPayloadExact(p, rest);
    SkipByParts(EncField(num, p) + rest, tag, |EncVarint(tag)|, |EncPayload(p)|);
  }

  lemma SkipGroupMore(s: bytes, k: nat)
    requires Varint(s).Some? && Varint(s).value.0 % 8 != 4
    requires Skip(s) == Some(k) && SkipGroup(s[k..]).Some?
    ensures SkipGroup(s) == Some(k + SkipGroup(s[k..]).value)
  {
  }

  lemma DropFirst(f: bytes, g: bytes, rest: bytes)
    ensures f + g + rest == f + (g + rest)
    ensures (f + (g + rest))[|f|..] == g + rest
  {
  }

  /** A group body `g` with one more field `f` in front. */
  lemma GroupAfterField(f: bytes, g: bytes, rest: bytes)
    requires Varint(f + (g + rest)).Some? && Varint(f + (g + rest)).value.0 % 8 != 4
    requires Skip(f + (g + rest)) == Some(|f|) && SkipGroup(g + rest) == Some(|g|)
    ensures SkipGroup(f + g + rest) == Some(|f + g|)
  {
    DropFirst(f, g, rest);
    SkipGroupMore(f + (g + rest), |f|);
  }

  lemma NoEndTag(num: nat, p: Payload, rest: bytes)
    requires num < MAX_TAG_NUM
    ensures var v := Varint(EncField(num, p) + rest); v.Some? && v.value.0 % 8 != 4
  {
    TagExact(num, p, rest);
  }

  lemma GroupEnd(num: nat, rest: bytes)
    requires num < MAX_TAG_NUM
    ensures SkipGroup(EncVarint(num * 8 + 4) + rest) == Some(|EncVarint(num * 8 + 4)|)
  {
    VarintRoundTrip(num * 8 + 4, rest);
    TagParts(num, 4);
  }

  lemma {:induction false} SkipGroupExact(fields: GroupFields, rest: bytes)
    requires WellFormedFields(fields)
    ensures SkipGroup(EncGroup(fields) + rest) == Some(|EncGroup(fields)|)
    decreases fields, 0
  {
    match fields {
      case End(num) =>
        GroupEnd(num, rest);
      case More(num, p, fields') =>
        var f, g := EncField(num, p), EncGroup(fields');
        SkipGroupExact(fields', rest);
        SkipExact(num, p, g + rest);
        NoEndTag(num, p, g + rest);
        GroupAfterField(f, g, rest);
    }
  }

  /** An unknown number and any complete payload: the premise of UnknownFieldTransparent. */
  lemma UnknownFieldIsWhole(num: nat, p: Payload)
    requires FieldNum(num) && WellFormed(p)
    ensures NextField(EncField(num, p)).Some?
    ensures NextField(EncField(num, p)).value.1 == |EncField(num, p)|
    ensures NextField(EncField(num, p)).value.0.num == num
  {
    assert EncField(num, p) + [] == EncField(num, p);
    TagExact(num, p, []);
    TagParts(num, WireTypeOf(p));
    SkipPayloadExact(p, []);
  }

  lemma FieldHasWireType(num: nat, p: Payload, rest: bytes)
    requires FieldNum(num) && WellFormed(p)
    ensures NextField(EncField(num, p) + rest).Some?
    ensures NextField(EncField(num, p) + rest).value.0.num == num
    ensures NextField(EncField(num, p) + rest).value.0.wireType == WireTypeOf(p)
  {
    TagExact(num, p, rest);
    TagParts(num, WireTypeOf(p));
    SkipPayloadExact(p, rest);
  }
}
