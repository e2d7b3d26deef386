/**
 The generated methods of pkg/app/codec.pb.go as loops over buffers, and the methods of
 pkg/app/tx.go and pkg/app/msg.go on them. Tx and ProposalOptions are objects; the batch messages
 and unions inside them are values. `accepts` stands for the decoders of the weave messages and
 `encodes` for their encoders, whose errors end the writing of what they are embedded in.
 */
module AppRecords {
  import opened Wire
  import opened WireCode
  import opened AppCodec

  // ----- Unions and batches -----

  function Fields(kinds: set<Kind>): set<int> {
    set k | k in kinds :: Num(k)
  }

  lemma InFields(kinds: set<Kind>, n: int)
    ensures n in Fields(kinds) <==> KindOf(n).Some? && KindOf(n).value in kinds
  {
    if n in Fields(kinds) {
      var k :| k in kinds && Num(k) == n;
      KindOfNum(k);
    }
    if KindOf(n).Some? && KindOf(n).value in kinds {
      NumOfKind(n);
    }
  }

  lemma UnionDispatches(accepts: Accepts, kinds: set<Kind>, m: Union)
    ensures Dispatches(UnionStep(accepts, kinds), m, Fields(kinds))
  {
    forall n ensures n in Fields(kinds) <==> KindOf(n).Some? && KindOf(n).value in kinds {
      InFields(kinds, n);
    }
  }

  method UnmarshalUnion(accepts: Accepts, kinds: set<Kind>, dAtA: bytes) returns (ok: bool, m: Union)
    requires |dAtA| < TWO_63
    ensures ok <==> Decode(UnionStep(accepts, kinds), None, dAtA).Some?
    ensures ok ==> m == Decode(UnionStep(accepts, kinds), None, dAtA).value
  {
    ghost var step := UnionStep(accepts, kinds);
    m := None;
    var iNdEx := 0;
    assert dAtA[0..] == dAtA;
    while iNdEx < |dAtA|
      invariant iNdEx <= |dAtA|
      invariant Decode(step, m, dAtA[iNdEx..]) == Decode(step, None, dAtA)
    {
      UnionDispatches(accepts, kinds, m);
      var fieldNum, body;
      ok, fieldNum, body, iNdEx := ReadField(dAtA, iNdEx, Fields(kinds), step, m);
      if !ok {
        return;
      }
      InFields(kinds, fieldNum);
      if fieldNum in Fields(kinds) {
        var k := KindOf(fieldNum).value;
        if !accepts(Message(k), body) {
          return false, m;
        }
        m := Some(Leaf(k, body));
      }
    }
    return true, m;
  }

  method UnmarshalBatch(accepts: Accepts, kinds: set<Kind>, dAtA: bytes) returns (ok: bool, m: seq<Union>)
    requires |dAtA| < TWO_63
    ensures ok <==> Decode(BatchStep(accepts, kinds), [], dAtA).Some?
    ensures ok ==> m == Decode(BatchStep(accepts, kinds), [], dAtA).value
  {
    ghost var step := BatchStep(accepts, kinds);
    m := [];
    var iNdEx := 0;
    assert dAtA[0..] == dAtA;
    while iNdEx < |dAtA|
      invariant iNdEx <= |dAtA|
      invariant Decode(step, m, dAtA[iNdEx..]) == Decode(step, [], dAtA)
    {
      var fieldNum, body;
      ok, fieldNum, body, iNdEx := ReadField(dAtA, iNdEx, {1}, step, m);
      if !ok {
        return;
      }
      if fieldNum == 1 {
        var u;
        ok, u := UnmarshalUnion(accepts, kinds, body);
        if !ok {
          return;
        }
        m := m + [u];
      }
    }
    return true, m;
  }

  method SizeUnion(u: Union) returns (n: nat)
    requires |EncAll(UnionRecs(u))| < TWO_63
    ensures n == |EncAll(UnionRecs(u))|
  {
    n := 0;
    if u.Some? {
      KindOfNum(u.value.kind);
      EncOne(LeafRec(u.value));
      n := SizeRec(LeafRec(u.value));
    }
  }

  /** An embedded foreign message: tag and length, then its own MarshalTo. */
  method PutForeign(d: array<byte>, i: nat, r: Rec, f: Foreign, encodes: Accepts) returns (ok: bool, next: nat)
    requires r.num < MAX_TAG_NUM && |r.body| < TWO_63
    requires i + |EncRec(r)| <= d.Length
    modifies d
    ensures ok <==> encodes(f, r.body)
    ensures ok ==> next == i + |EncRec(r)| && d[..] == Splice(old(d[..]), i, EncRec(r))
  {
    ghost var before := d[..];
    next := PutHeader(d, i, r.num, |r.body|);
    ok := encodes(f, r.body);
    if ok {
      next := PutBytes(d, next, r.body);
      SpliceTwice(before, i, EncTag(r.num) + EncVarint(|r.body|), r.body);
    }
  }

  method PutUnion(d: array<byte>, i: nat, u: Union, encodes: Accepts) returns (ok: bool, next: nat)
    requires i + |EncAll(UnionRecs(u))| <= d.Length && |EncAll(UnionRecs(u))| < TWO_63
    modifies d
    ensures ok <==> (u.Some? ==> LeafEncodes(encodes, u.value))
    ensures ok ==> next == i + |EncAll(UnionRecs(u))| && d[..] == Splice(old(d[..]), i, EncAll(UnionRecs(u)))
  {
    ok, next := true, i;
    if u.Some? {
      KindOfNum(u.value.kind);
      EncOne(LeafRec(u.value));
      ok, next := PutForeign(d, i, LeafRec(u.value), Message(u.value.kind), encodes);
    }
  }

  method SizeBatch(us: seq<Union>) returns (n: nat)
    requires |EncAll(BatchRecs(us))| < TWO_63
    ensures n == |EncAll(BatchRecs(us))|
  {
    ghost var es := EncUnions(us);
    n := 0;
    assert es[0..] == es;
    for k := 0 to |us|
      invariant n + |EncAll(Repeated(1, es[k..]))| == |EncAll(Repeated(1, es))|
    {
      RepeatedFirst(1, es, k);
      assert es[k] == EncAll(UnionRecs(us[k]));
      var l := SizeUnion(us[k]);
      l := SizeHeader(1, l);
      n := n + l;
    }
  }

  method PutBatch(d: array<byte>, i: nat, us: seq<Union>, encodes: Accepts) returns (ok: bool, next: nat)
    requires i + |EncAll(BatchRecs(us))| <= d.Length && |EncAll(BatchRecs(us))| < TWO_63
    modifies d
    ensures ok <==> UnionsEncode(encodes, us)
    ensures ok ==> next == i + |EncAll(BatchRecs(us))| && d[..] == Splice(old(d[..]), i, EncAll(BatchRecs(us)))
  {
    ghost var es, base := EncUnions(us), d[..];
    ok, next := PutMessages(d, i, us, encodes, es, base, EncAll(Repeated(1, es)));
  }

  /** The loop over the messages, each behind its tag and length. */
  method PutMessages(d: array<byte>, i: nat, us: seq<Union>, encodes: Accepts,
                     ghost es: seq<bytes>, ghost base: bytes, ghost total: bytes)
    returns (ok: bool, next: nat)
    requires es == EncUnions(us) && total == EncAll(Repeated(1, es)) && |total| < TWO_63
    requires d[..] == base && i + |total| <= d.Length
    modifies d
    ensures ok <==> UnionsEncode(encodes, us)
    ensures ok ==> Wrote(d[..], base, i, total, next)
  {
    ghost var now: bytes := [];
    next := i;
    assert es[0..] == es && now + total == total;
    for k := 0 to |us|
      invariant ToWrite(1, es, k, now, total)
      invariant Wrote(d[..], base, i, now, next)
      invariant UnionsEncode(encodes, us[..k])
    {
      WriteNext(1, es, k, now, total);
      OneMoreEncodes(encodes, us, k);
      ok, next := PutMessage(d, next, us[k], encodes, base, i, now);
      if !ok {
        return;
      }
      now := now + EncRec(Rec(1, es[k]));
    }
    AllWritten(1, es, now, total);
    assert us[..|us|] == us;
    return true, next;
  }

  lemma OneMoreEncodes(encodes: Accepts, us: seq<Union>, k: nat)
    requires k < |us|
    ensures UnionsEncode(encodes, us[..k + 1]) <==>
            UnionsEncode(encodes, us[..k]) && (us[k].Some? ==> LeafEncodes(encodes, us[k].value))
    ensures UnionsEncode(encodes, us) ==> UnionsEncode(encodes, us[..k + 1])
  {
    assert forall j | 0 <= j < k :: us[..k + 1][j] == us[..k][j];
    assert us[..k + 1][k] == us[k];
  }

  method PutMessage(d: array<byte>, i: nat, u: Union, encodes: Accepts, ghost base: bytes, ghost off: nat, ghost w: bytes)
    returns (ok: bool, next: nat)
    requires Wrote(d[..], base, off, w, i)
    requires i + |EncRec(Rec(1, EncAll(UnionRecs(u))))| <= d.Length && |EncAll(UnionRecs(u))| < TWO_63
    modifies d
    ensures ok <==> (u.Some? ==> LeafEncodes(encodes, u.value))
    ensures ok ==> Wrote(d[..], base, off, w + EncRec(Rec(1, EncAll(UnionRecs(u)))), next)
  {
    var size := SizeUnion(u);
    WroteTwice(base, off, w, i, EncTag(1) + EncVarint(size), EncAll(UnionRecs(u)));
    next := PutHeader(d, i, 1, size);
    ok, next := PutUnion(d, next, u, encodes);
  }

  // ----- The one-of of Tx and ProposalOptions -----

  method SizeSum(s: Option<Sum>) returns (n: nat)
    requires |EncAll(SumRecs(s))| < TWO_63
    ensures n == |EncAll(SumRecs(s))|
  {
    match s {
      case None => n := 0;
      case Some(Single(l)) =>
        KindOfNum(l.kind);
        EncOne(LeafRec(l));
        n := SizeRec(LeafRec(l));
      case Some(Batch(us)) =>
        EncOne(SumRec(s.value));
        n := SizeBatch(us);
        n := SizeHeader(BATCH_NUM, n);
    }
  }

  method PutSum(d: array<byte>, i: nat, s: Option<Sum>, encodes: Accepts) returns (ok: bool, next: nat)
    requires i + |EncAll(SumRecs(s))| <= d.Length && |EncAll(SumRecs(s))| < TWO_63
    modifies d
    ensures ok <==> SumEncodes(encodes, s)
    ensures ok ==> next == i + |EncAll(SumRecs(s))| && d[..] == Splice(old(d[..]), i, EncAll(SumRecs(s)))
  {
    match s {
      case None => return true, i;
      case Some(Single(l)) =>
        KindOfNum(l.kind);
        EncOne(LeafRec(l));
        ok, next := PutForeign(d, i, LeafRec(l), Message(l.kind), encodes);
      case Some(Batch(us)) =>
        EncOne(SumRec(s.value));
        ok, next := PutBatchRec(d, i, us, encodes);
    }
  }

  method PutBatchRec(d: array<byte>, i: nat, us: seq<Union>, encodes: Accepts) returns (ok: bool, next: nat)
    requires i + |EncRec(SumRec(Batch(us)))| <= d.Length && |EncRec(SumRec(Batch(us)))| < TWO_63
    modifies d
    ensures ok <==> UnionsEncode(encodes, us)
    ensures ok ==> next == i + |EncRec(SumRec(Batch(us)))| && d[..] == Splice(old(d[..]), i, EncRec(SumRec(Batch(us))))
  {
    ghost var start := d[..];
    var size := SizeBatch(us);
    SpliceTwice(start, i, EncTag(BATCH_NUM) + EncVarint(size), EncAll(BatchRecs(us)));
    next := PutHeader(d, i, BATCH_NUM, size);
    ok, next := PutBatch(d, next, us, encodes);
  }

  /** The one-of cases of the two Unmarshal switches. */
  method AssignSum(accepts: Accepts, schema: Schema, ghost m: Option<Sum>, fieldNum: int, body: bytes)
    returns (ok: bool, s: Sum)
    requires fieldNum in Fields(schema.direct) + {BATCH_NUM} && |body| < TWO_63
    ensures SumField(accepts, schema, m, Field(fieldNum, 2, body)) == if ok then Some(Some(s)) else None
  {
    s := Batch([]);
    if fieldNum == BATCH_NUM {
      var us;
      ok, us := UnmarshalBatch(accepts, schema.batch, body);
      s := Batch(us);
    } else {
      InFields(schema.direct, fieldNum);
      var k := KindOf(fieldNum).value;
      ok, s := accepts(Message(k), body), Single(Leaf(k, body));
    }
  }

  lemma SumDispatches(accepts: Accepts, schema: Schema, m: Option<Sum>, n: int, wt: nat, b: bytes)
    ensures n in Fields(schema.direct) + {BATCH_NUM} && wt != 2 ==> SumField(accepts, schema, m, Field(n, wt, b)) == None
    ensures n !in Fields(schema.direct) + {BATCH_NUM} ==> SumField(accepts, schema, m, Field(n, wt, b)) == Some(m)
  {
    InFields(schema.direct, n);
  }

  class OptionRecord {
    var option: Option<Sum>

    constructor (o: Option<Sum>)
      ensures option == o
    {
      option := o;
    }

    method Marshal(encodes: Accepts) returns (ok: bool, dAtA: array<byte>)
      requires |EncAll(SumRecs(option))| < TWO_63
      ensures ok <==> SumEncodes(encodes, option)
      ensures fresh(dAtA) && (ok ==> dAtA[..] == EncAll(SumRecs(option)))
    {
      var size := SizeSum(option);
      dAtA := new byte[size](_ => 0);
      var n;
      ok, n := PutSum(dAtA, 0, option, encodes);
    }

    method Unmarshal(accepts: Accepts, dAtA: bytes) returns (ok: bool)
      requires |dAtA| < TWO_63
      modifies this
      ensures ok <==> Decode(OptionStep(accepts), old(option), dAtA).Some?
      ensures ok ==> option == Decode(OptionStep(accepts), old(option), dAtA).value
    {
      ghost var step := OptionStep(accepts);
      ghost var target := Decode(step, option, dAtA);
      var known := Fields(OPTION_SCHEMA.direct) + {BATCH_NUM};
      var iNdEx := 0;
      assert dAtA[0..] == dAtA;
      while iNdEx < |dAtA|
        invariant iNdEx <= |dAtA|
        invariant Decode(step, option, dAtA[iNdEx..]) == target
      {
        assert Dispatches(step, option, known) by {
          forall n, wt, b { SumDispatches(accepts, OPTION_SCHEMA, option, n, wt, b); }
        }
        var fieldNum, body;
        ok, fieldNum, body, iNdEx := ReadField(dAtA, iNdEx, known, step, option);
        if !ok {
          return;
        }
        if fieldNum in known {
          var s;
          ok, s := AssignSum(accepts, OPTION_SCHEMA, option, fieldNum, body);
          if !ok {
            return;
          }
          option := Some(s);
        }
      }
      return true;
    }
  }

  class TxRecord {
    var fees: Option<bytes>
    var signatures: seq<bytes>
    var multisig: seq<bytes>
    var sum: Option<Sum>

    constructor (tx: Tx)
      ensures View() == tx
    {
      fees, signatures, multisig, sum := tx.fees, tx.signatures, tx.multisig, tx.sum;
    }

    function View(): Tx
      reads this
    {
      Tx(fees, signatures, multisig, sum)
    }

    method Size() returns (n: nat)
      requires |EncAll(TxRecs(View()))| < TWO_63
      ensures n == |EncAll(TxRecs(View()))|
    {
      TxBytes(View());
      n := 0;
      if fees.Some? {
        EncOne(Rec(1, fees.value));
        n := SizeRec(Rec(1, fees.value));
      }
      var l := SizeRepeated(2, signatures);
      n := n + l;
      l := SizeRepeated(4, multisig);
      n := n + l;
      l := SizeSum(sum);
      n := n + l;
    }

    method MarshalTo(dAtA: array<byte>, off: nat, encodes: Accepts) returns (ok: bool, i: nat)
      requires off + |EncAll(TxRecs(View()))| <= dAtA.Length && |EncAll(TxRecs(View()))| < TWO_63
      modifies dAtA
      ensures ok <==> TxEncodes(encodes, View())
      ensures ok ==> i == off + |EncAll(TxRecs(View()))|
      ensures ok ==> dAtA[..] == Splice(old(dAtA[..]), off, EncAll(TxRecs(View())))
    {
      TxBytes(View());
      ghost var base := dAtA[..];
      ok, i := PutTxHead(dAtA, off, fees, signatures, multisig, encodes);
      if !ok {
        return;
      }
      SpliceTwice(base, off, TxHead(fees, signatures, multisig), EncAll(SumRecs(sum)));
      ok, i := PutSum(dAtA, i, sum, encodes);
    }

    method Marshal(encodes: Accepts) returns (ok: bool, dAtA: array<byte>)
      requires |EncAll(TxRecs(View()))| < TWO_63
      ensures ok <==> TxEncodes(encodes, View())
      ensures fresh(dAtA) && (ok ==> dAtA[..] == EncAll(TxRecs(View())))
    {
      var size := Size();
      dAtA := new byte[size](_ => 0);
      var n;
      ok, n := MarshalTo(dAtA, 0, encodes);
    }

    method Unmarshal(accepts: Accepts, dAtA: bytes) returns (ok: bool)
      requires |dAtA| < TWO_63
      modifies this
      ensures ok <==> Decode(TxStep(accepts), old(View()), dAtA).Some?
      ensures ok ==> View() == Decode(TxStep(accepts), old(View()), dAtA).value
    {
      ghost var step := TxStep(accepts);
      ghost var target := Decode(step, View(), dAtA);
      var sums := Fields(TX_SCHEMA.direct) + {BATCH_NUM};
      var known := {1, 2, 4} + sums;
      var iNdEx := 0;
      assert dAtA[0..] == dAtA;
      while iNdEx < |dAtA|
        invariant iNdEx <= |dAtA|
        invariant Decode(step, View(), dAtA[iNdEx..]) == target
      {
        ghost var m := View();
        TxDispatches(accepts, m, known);
        var fieldNum, body;
        ok, fieldNum, body, iNdEx := ReadField(dAtA, iNdEx, known, step, m);
        if !ok {
          return;
        }
        if fieldNum in known {
          ok := Assign(accepts, fieldNum, body);
          if !ok {
            return;
          }
        }
      }
      return true;
    }

    /** The signatures are cleared while the bytes to sign are computed and put back in either outcome. */
    method GetSignBytes(encodes: Accepts) returns (ok: bool, bz: array<byte>)
      requires |SignBytes(View())| < TWO_63
      modifies this
      ensures View() == old(View())
      ensures ok <==> TxEncodes(encodes, old(View()).(signatures := []))
      ensures fresh(bz) && (ok ==> bz[..] == SignBytes(old(View())))
    {
      var saved := signatures;
      signatures := [];
      ok, bz := Marshal(encodes);
      signatures := saved;
    }

    /** `SignTx`: the signer signs the sign bytes or fails; a signature is appended. */
    method SignTx(encodes: Accepts, sign: Signer) returns (ok: bool)
      requires |SignBytes(View())| < TWO_63
      modifies this
      ensures View() == Signed(encodes, old(View()), sign)
      ensures ok <==> View() != old(View())
    {
      var bz;
      ok, bz := GetSignBytes(encodes);
      if !ok {
        return;
      }
      var sig := sign(bz[..]);
      if sig.None? {
        return false;
      }
      signatures := signatures + [sig.value];
      assert |signatures| > |old(signatures)|;
      return true;
    }

    method Assign(accepts: Accepts, fieldNum: int, body: bytes) returns (ok: bool)
      requires fieldNum in {1, 2, 4} + (Fields(TX_SCHEMA.direct) + {BATCH_NUM}) && |body| < TWO_63
      modifies this
      ensures TxField(accepts, old(View()), Field(fieldNum, 2, body)) == if ok then Some(View()) else None
    {
      match fieldNum {
        case 1 =>
          if !accepts(FeeInfo, body) {
            return false;
          }
          fees := Some((if fees.None? then [] else fees.value) + body);
        case 2 =>
          if !accepts(StdSignature, body) {
            return false;
          }
          signatures := signatures + [body];
        case 4 =>
          multisig := multisig + [body];
        case _ =>
          var s;
          ok, s := AssignSum(accepts, TX_SCHEMA, sum, fieldNum, body);
          if !ok {
            return;
          }
          sum := Some(s);
      }
      return true;
    }
  }

  function SignBytes(tx: Tx): bytes {
    EncAll(TxRecs(tx.(signatures := [])))
  }

  type Signer = bytes -> Option<bytes>

  function Signed(encodes: Accepts, tx: Tx, sign: Signer): Tx {
    if !TxEncodes(encodes, tx.(signatures := [])) then tx
    else match sign(SignBytes(tx))
         case None => tx
         case Some(sig) => tx.(signatures := tx.signatures + [sig])
  }

  /** Signing by any number of signers, one after the other. */
  function SignedByAll(encodes: Accepts, tx: Tx, signers: seq<Signer>): Tx
    decreases |signers|
  {
    if signers == [] then tx else SignedByAll(encodes, Signed(encodes, tx, signers[0]), signers[1..])
  }

  /** The signatures over `bz` of those signers that do not fail. */
  function SignaturesOver(bz: bytes, signers: seq<Signer>): seq<bytes>
    decreases |signers|
  {
    if signers == [] then []
    else (match signers[0](bz) case None => [] case Some(sig) => [sig]) + SignaturesOver(bz, signers[1..])
  }

  /** Every signer signs the same bytes, whoever signed or failed before. */
  lemma {:induction false} SignersAgree(encodes: Accepts, tx: Tx, signers: seq<Signer>)
    ensures SignBytes(SignedByAll(encodes, tx, signers)) == SignBytes(tx)
    ensures SignedByAll(encodes, tx, signers) == tx.(signatures := tx.signatures +
              if TxEncodes(encodes, tx.(signatures := [])) then SignaturesOver(SignBytes(tx), signers) else [])
    decreases |signers|
  {
    if signers == [] {
      assert tx.signatures + [] == tx.signatures;
    } else {
      var next := Signed(encodes, tx, signers[0]);
      assert next.(signatures := []) == tx.(signatures := []);
      SignersAgree(encodes, next, signers[1..]);
      if TxEncodes(encodes, tx.(signatures := [])) {
        var first := match signers[0](SignBytes(tx)) case None => [] case Some(sig) => [sig];
        var more := SignaturesOver(SignBytes(tx), signers[1..]);
        assert next.signatures == tx.signatures + first;
        assert tx.signatures + first + more == tx.signatures + (first + more);
      } else {
        assert tx.signatures + [] == tx.signatures;
      }
    }
  }

  /** Two transactions with the same sign bytes differ at most in their signatures. */
  lemma SignBytesInjective(a: Tx, b: Tx)
    requires SignBytes(a) == SignBytes(b) && |SignBytes(a)| < TWO_63
    requires SumOk(AcceptAll(), TX_SCHEMA, a.sum) && SumOk(AcceptAll(), TX_SCHEMA, b.sum)
    ensures a.fees == b.fees && a.multisig == b.multisig && a.sum == b.sum
  {
    TxInjective(a.(signatures := []), b.(signatures := []));
  }

  lemma TxDispatches(accepts: Accepts, m: Tx, known: set<int>)
    requires known == {1, 2, 4} + (Fields(TX_SCHEMA.direct) + {BATCH_NUM})
    ensures Dispatches(TxStep(accepts), m, known)
  {
    forall n, wt, b
      ensures n in known && wt != 2 ==> TxStep(accepts)(m, Field(n, wt, b)) == None
      ensures n !in known ==> TxStep(accepts)(m, Field(n, wt, b)) == Some(m)
    {
      SumDispatches(accepts, TX_SCHEMA, m.sum, n, wt, b);
    }
  }

  method PutFees(d: array<byte>, off: nat, fees: Option<bytes>, encodes: Accepts) returns (ok: bool, i: nat)
    requires off + |EncAll(FeeRecs(fees))| <= d.Length && |EncAll(FeeRecs(fees))| < TWO_63
    modifies d
    ensures ok <==> (fees.Some? ==> encodes(FeeInfo, fees.value))
    ensures ok ==> Wrote(d[..], old(d[..]), off, EncAll(FeeRecs(fees)), i)
  {
    ok, i := true, off;
    if fees.Some? {
      EncOne(Rec(1, fees.value));
      ok, i := PutForeign(d, i, Rec(1, fees.value), FeeInfo, encodes);
    }
  }

  method PutStdSignatures(d: array<byte>, i: nat, ss: seq<bytes>, encodes: Accepts,
                          ghost base: bytes, ghost off: nat, ghost w: bytes)
    returns (ok: bool, next: nat)
    requires Wrote(d[..], base, off, w, i)
    requires i + |EncAll(Repeated(2, ss))| <= d.Length && |EncAll(Repeated(2, ss))| < TWO_63
    modifies d
    ensures ok <==> SignaturesEncode(encodes, ss)
    ensures ok ==> Wrote(d[..], base, off, w + EncAll(Repeated(2, ss)), next)
  {
    next := i;
    ghost var now, total := w, w + EncAll(Repeated(2, ss));
    assert ss[0..] == ss;
    for k := 0 to |ss|
      invariant ToWrite(2, ss, k, now, total)
      invariant Wrote(d[..], base, off, now, next)
      invariant forall j | 0 <= j < k :: encodes(StdSignature, ss[j])
    {
      WriteNext(2, ss, k, now, total);
      SpliceTwice(base, off, now, EncRec(Rec(2, ss[k])));
      ok, next := PutForeign(d, next, Rec(2, ss[k]), StdSignature, encodes);
      if !ok {
        return;
      }
      now := now + EncRec(Rec(2, ss[k]));
    }
    AllWritten(2, ss, now, total);
    return true, next;
  }

  function TxHead(fees: Option<bytes>, ss: seq<bytes>, ids: seq<bytes>): bytes {
    EncAll(FeeRecs(fees)) + EncAll(Repeated(2, ss)) + EncAll(Repeated(4, ids))
  }

  /** The fields in front of the one-of. */
  method PutTxHead(d: array<byte>, off: nat, fees: Option<bytes>, ss: seq<bytes>, ids: seq<bytes>, encodes: Accepts)
    returns (ok: bool, i: nat)
    requires off + |TxHead(fees, ss, ids)| <= d.Length && |TxHead(fees, ss, ids)| < TWO_63
    modifies d
    ensures ok <==> (fees.Some? ==> encodes(FeeInfo, fees.value)) && SignaturesEncode(encodes, ss)
    ensures ok ==> Wrote(d[..], old(d[..]), off, TxHead(fees, ss, ids), i)
  {
    ghost var base := d[..];
    ghost var w1 := EncAll(FeeRecs(fees));
    ok, i := PutFees(d, off, fees, encodes);
    if !ok {
      return;
    }
    ok, i := PutStdSignatures(d, i, ss, encodes, base, off, w1);
    if !ok {
      return;
    }
    i := PutRepeated(d, i, 4, ids, base, off, w1 + EncAll(Repeated(2, ss)));
  }

  lemma TxBytes(tx: Tx)
    ensures EncAll(TxRecs(tx)) ==
            TxHead(tx.fees, tx.signatures, tx.multisig) + EncAll(SumRecs(tx.sum))
  {
    var r1 := FeeRecs(tx.fees);
    var r2 := r1 + Repeated(2, tx.signatures);
    var r3 := r2 + Repeated(4, tx.multisig);
    EncAllConcat(r1, Repeated(2, tx.signatures));
    EncAllConcat(r2, Repeated(4, tx.multisig));
    EncAllConcat(r3, SumRecs(tx.sum));
  }
}
