/**
 The generated structs of pkg/rbac/codec.pb.go as mutable objects: Size, MarshalTo and Marshal write
 exactly the encoding of the current value, Unmarshal advances over the input field by field and
 leaves the object as the decoding of the whole input. Messages that would not fit a Go slice are
 excluded.
 */
module RbacRecords {
  import opened Wire
  import opened WireCode
  import opened RbacCodec

  lemma SignatureDispatches(m: NamedSignature)
    ensures Dispatches(SignatureStep, m, {1, 2, 3})
  {
  }

  lemma RoleDispatches(m: Role)
    ensures Dispatches(RoleStep, m, {1, 2, 3, 4, 5, 6, 7})
  {
  }

  lemma BindingDispatches(m: RoleBinding)
    ensures Dispatches(BindingStep, m, {1, 2, 3})
  {
  }

  lemma PrincipalDispatches(m: Principal)
    ensures Dispatches(PrincipalStep, m, {1, 2, 3, 4})
  {
  }

  class SignatureRecord {
    var name: bytes
    var description: bytes
    var signature: bytes

    constructor ()
      ensures View() == NO_SIGNATURE
    {
      name, description, signature := [], [], [];
    }

    function View(): NamedSignature
      reads this
    {
      NamedSignature(name, description, signature)
    }

    method Size() returns (n: nat)
      requires |EncAll(SignatureRecs(View()))| < TWO_63
      ensures n == |EncAll(SignatureRecs(View()))|
    {
      SignatureBytes(View());
      n := SizeScalar(1, name);
      var l := SizeScalar(2, description);
      n := n + l;
      l := SizeScalar(3, signature);
      n := n + l;
    }

    method MarshalTo(dAtA: array<byte>, off: nat) returns (i: nat)
      requires off + |EncAll(SignatureRecs(View()))| <= dAtA.Length && |EncAll(SignatureRecs(View()))| < TWO_63
      modifies dAtA
      ensures i == off + |EncAll(SignatureRecs(View()))|
      ensures dAtA[..] == Splice(old(dAtA[..]), off, EncAll(SignatureRecs(View())))
    {
      SignatureBytes(View());
      ghost var base := dAtA[..];
      ghost var w1 := [] + EncAll(Scalar(1, name));
      ghost var w2 := w1 + EncAll(Scalar(2, description));
      i := PutScalar(dAtA, off, 1, name, base, off, []);
      i := PutScalar(dAtA, i, 2, description, base, off, w1);
      i := PutScalar(dAtA, i, 3, signature, base, off, w2);
    }

    method Unmarshal(dAtA: bytes) returns (ok: bool)
      requires |dAtA| < TWO_63
      modifies this
      ensures ok <==> Decode(SignatureStep, old(View()), dAtA).Some?
      ensures ok ==> View() == Decode(SignatureStep, old(View()), dAtA).value
    {
      ghost var target := Decode(SignatureStep, View(), dAtA);
      var iNdEx := 0;
      assert dAtA[0..] == dAtA;
      while iNdEx < |dAtA|
        invariant iNdEx <= |dAtA|
        invariant Decode(SignatureStep, View(), dAtA[iNdEx..]) == target
      {
        ghost var m := View();
        SignatureDispatches(m);
        var fieldNum, body;
        ok, fieldNum, body, iNdEx := ReadField(dAtA, iNdEx, {1, 2, 3}, SignatureStep, m);
        if !ok {
          return;
        }
        match fieldNum {
          case 1 => name := body;
          case 2 => description := body;
          case 3 => signature := body;
          case _ =>
        }
        assert fieldNum in {1, 2, 3} ==> SignatureStep(m, Field(fieldNum, 2, body)) == Some(View());
      }
      return true;
    }
  }

  class RoleRecord {
    var metadata: Option<Metadata>
    var name: bytes
    var description: bytes
    var address: bytes
    var roleIds: seq<bytes>
    var owner: bytes
    var permissions: seq<bytes>

    constructor ()
      ensures View() == NO_ROLE
    {
      metadata, name, description, address := None, [], [], [];
      roleIds, owner, permissions := [], [], [];
    }

    function View(): Role
      reads this
    {
      Role(metadata, name, description, address, roleIds, owner, permissions)
    }

    method Size() returns (n: nat)
      requires |EncAll(RoleRecs(View()))| < TWO_63
      ensures n == |EncAll(RoleRecs(View()))|
    {
      RoleBytes(View());
      n := SizeMetadata(metadata);
      var l := SizeScalar(2, name);
      n := n + l;
      l := SizeScalar(3, description);
      n := n + l;
      l := SizeScalar(4, address);
      n := n + l;
      l := SizeRepeated(5, roleIds);
      n := n + l;
      l := SizeScalar(6, owner);
      n := n + l;
      l := SizeRepeated(7, permissions);
      n := n + l;
    }

    method MarshalTo(dAtA: array<byte>, off: nat) returns (i: nat)
      requires off + |EncAll(RoleRecs(View()))| <= dAtA.Length && |EncAll(RoleRecs(View()))| < TWO_63
      modifies dAtA
      ensures i == off + |EncAll(RoleRecs(View()))|
      ensures dAtA[..] == Splice(old(dAtA[..]), off, EncAll(RoleRecs(View())))
    {
      RoleBytes(View());
      ghost var base := dAtA[..];
      ghost var w1 := EncAll(MetadataRec(metadata));
      ghost var w2 := w1 + EncAll(Scalar(2, name));
      ghost var w3 := w2 + EncAll(Scalar(3, description));
      ghost var w4 := w3 + EncAll(Scalar(4, address));
      ghost var w5 := w4 + EncAll(Repeated(5, roleIds));
      ghost var w6 := w5 + EncAll(Scalar(6, owner));
      i := PutMetadata(dAtA, off, metadata);
      i := PutScalar(dAtA, i, 2, name, base, off, w1);
      i := PutScalar(dAtA, i, 3, description, base, off, w2);
      i := PutScalar(dAtA, i, 4, address, base, off, w3);
      i := PutRepeated(dAtA, i, 5, roleIds, base, off, w4);
      i := PutScalar(dAtA, i, 6, owner, base, off, w5);
      i := PutRepeated(dAtA, i, 7, permissions, base, off, w6);
    }

    method Marshal() returns (dAtA: array<byte>)
      requires |EncAll(RoleRecs(View()))| < TWO_63
      ensures fresh(dAtA) && dAtA[..] == EncAll(RoleRecs(View()))
    {
      var size := Size();
      dAtA := new byte[size](_ => 0);
      var n := MarshalTo(dAtA, 0);
    }

    method Unmarshal(dAtA: bytes) returns (ok: bool)
      requires |dAtA| < TWO_63
      modifies this
      ensures ok <==> Decode(RoleStep, old(View()), dAtA).Some?
      ensures ok ==> View() == Decode(RoleStep, old(View()), dAtA).value
    {
      ghost var target := Decode(RoleStep, View(), dAtA);
      var iNdEx := 0;
      assert dAtA[0..] == dAtA;
      while iNdEx < |dAtA|
        invariant iNdEx <= |dAtA|
        invariant Decode(RoleStep, View(), dAtA[iNdEx..]) == target
      {
        RoleDispatches(View());
        var fieldNum, body;
        ok, fieldNum, body, iNdEx := ReadField(dAtA, iNdEx, {1, 2, 3, 4, 5, 6, 7}, RoleStep, View());
        if !ok {
          return;
        }
        if fieldNum in {1, 2, 3, 4, 5, 6, 7} {
          ok := Assign(fieldNum, body);
          if !ok {
            return;
          }
        }
      }
      return true;
    }

    /** The assignment in each case of the switch over field numbers. */
    method Assign(fieldNum: int, body: bytes) returns (ok: bool)
      requires 1 <= fieldNum <= 7
      modifies this
      ensures RoleStep(old(View()), Field(fieldNum, 2, body)) == if ok then Some(View()) else None
    {
      match fieldNum {
        case 1 =>
          var d := DecodeMetadata(metadata, body);
          if d.None? {
            return false;
          }
          metadata := d;
        case 2 => name := body;
        case 3 => description := body;
        case 4 => address := body;
        case 5 => roleIds := roleIds + [body];
        case 6 => owner := body;
        case _ => permissions := permissions + [body];
      }
      return true;
    }
  }

  class BindingRecord {
    var metadata: Option<Metadata>
    var roleId: bytes
    var signature: bytes

    constructor ()
      ensures View() == NO_BINDING
    {
      metadata, roleId, signature := None, [], [];
    }

    function View(): RoleBinding
      reads this
    {
      RoleBinding(metadata, roleId, signature)
    }

    method Size() returns (n: nat)
      requires |EncAll(BindingRecs(View()))| < TWO_63
      ensures n == |EncAll(BindingRecs(View()))|
    {
      BindingBytes(View());
      n := SizeMetadata(metadata);
      var l := SizeScalar(2, roleId);
      n := n + l;
      l := SizeScalar(3, signature);
      n := n + l;
    }

    method MarshalTo(dAtA: array<byte>, off: nat) returns (i: nat)
      requires off + |EncAll(BindingRecs(View()))| <= dAtA.Length && |EncAll(BindingRecs(View()))| < TWO_63
      modifies dAtA
      ensures i == off + |EncAll(BindingRecs(View()))|
      ensures dAtA[..] == Splice(old(dAtA[..]), off, EncAll(BindingRecs(View())))
    {
      BindingBytes(View());
      ghost var base := dAtA[..];
      ghost var w1 := EncAll(MetadataRec(metadata));
      ghost var w2 := w1 + EncAll(Scalar(2, roleId));
      i := PutMetadata(dAtA, off, metadata);
      i := PutScalar(dAtA, i, 2, roleId, base, off, w1);
      i := PutScalar(dAtA, i, 3, signature, base, off, w2);
    }

    method Marshal() returns (dAtA: array<byte>)
      requires |EncAll(BindingRecs(View()))| < TWO_63
      ensures fresh(dAtA) && dAtA[..] == EncAll(BindingRecs(View()))
    {
      var size := Size();
      dAtA := new byte[size](_ => 0);
      var n := MarshalTo(dAtA, 0);
    }

    method Unmarshal(dAtA: bytes) returns (ok: bool)
      requires |dAtA| < TWO_63
      modifies this
      ensures ok <==> Decode(BindingStep, old(View()), dAtA).Some?
      ensures ok ==> View() == Decode(BindingStep, old(View()), dAtA).value
    {
      ghost var target := Decode(BindingStep, View(), dAtA);
      var iNdEx := 0;
      assert dAtA[0..] == dAtA;
      while iNdEx < |dAtA|
        invariant iNdEx <= |dAtA|
        invariant Decode(BindingStep, View(), dAtA[iNdEx..]) == target
      {
        BindingDispatches(View());
        var fieldNum, body;
        ok, fieldNum, body, iNdEx := ReadField(dAtA, iNdEx, {1, 2, 3}, BindingStep, View());
        if !ok {
          return;
        }
        if fieldNum in {1, 2, 3} {
          ok := Assign(fieldNum, body);
          if !ok {
            return;
          }
        }
      }
      return true;
    }

    method Assign(fieldNum: int, body: bytes) returns (ok: bool)
      requires 1 <= fieldNum <= 3
      modifies this
      ensures BindingStep(old(View()), Field(fieldNum, 2, body)) == if ok then Some(View()) else None
    {
      match fieldNum {
        case 1 =>
          var d := DecodeMetadata(metadata, body);
          if d.None? {
            return false;
          }
          metadata := d;
        case 2 => roleId := body;
        case _ => signature := body;
      }
      return true;
    }
  }

  /** The values of a list of signature objects. */
  function Views(ss: seq<SignatureRecord>): seq<NamedSignature>
    reads ss
  {
    seq(|ss|, i requires 0 <= i < |ss| reads ss => ss[i].View())
  }

  method SizeSignatures(ss: seq<SignatureRecord>, ghost vs: seq<NamedSignature>) returns (n: nat)
    requires Views(ss) == vs && |EncAll(Repeated(4, EncSignatures(vs)))| < TWO_63
    ensures n == |EncAll(Repeated(4, EncSignatures(vs)))|
  {
    ghost var es := EncSignatures(vs);
    n := 0;
    assert es[0..] == es;
    for k := 0 to |ss|
      invariant n + |EncAll(Repeated(4, es[k..]))| == |EncAll(Repeated(4, es))|
    {
      RepeatedFirst(4, es, k);
      assert ss[k].View() == vs[k] && es[k] == EncAll(SignatureRecs(vs[k]));
      var l := ss[k].Size();
      l := SizeHeader(4, l);
      n := n + l;
    }
  }

  method PutSignatures(d: array<byte>, i: nat, ss: seq<SignatureRecord>, ghost vs: seq<NamedSignature>,
                       ghost base: bytes, ghost off: nat, ghost w: bytes)
    returns (next: nat)
    requires Views(ss) == vs && Wrote(d[..], base, off, w, i)
    requires i + |EncAll(Repeated(4, EncSignatures(vs)))| <= d.Length
    requires |EncAll(Repeated(4, EncSignatures(vs)))| < TWO_63
    modifies d
    ensures Wrote(d[..], base, off, w + EncAll(Repeated(4, EncSignatures(vs))), next)
  {
    ghost var es := EncSignatures(vs);
    ghost var now := w;
    next := i;
    assert es[0..] == es;
    for k := 0 to |ss|
      invariant |ss| == |vs| && forall j | 0 <= j < |ss| :: ss[j].View() == vs[j]
      invariant now + EncAll(Repeated(4, es[k..])) == w + EncAll(Repeated(4, es))
      invariant |EncAll(Repeated(4, es[k..]))| < TWO_63
      invariant Wrote(d[..], base, off, now, next)
    {
      ghost var e := EncRec(Rec(4, es[k]));
      RepeatedFirst(4, es, k);
      assert now + (e + EncAll(Repeated(4, es[k + 1..]))) == now + e + EncAll(Repeated(4, es[k + 1..]));
      assert es[k] == EncAll(SignatureRecs(vs[k]));
      next := PutSignature(d, next, ss[k], es[k], base, off, now);
      now := now + e;
    }
    assert now + [] == now;
  }

  /** Tag, length and then the nested message's own MarshalTo on the rest of the buffer. */
  method PutSignature(d: array<byte>, i: nat, s: SignatureRecord, ghost e: bytes,
                      ghost base: bytes, ghost off: nat, ghost w: bytes)
    returns (next: nat)
    requires e == EncAll(SignatureRecs(s.View())) && Wrote(d[..], base, off, w, i)
    requires i + |EncRec(Rec(4, e))| <= d.Length && |e| < TWO_63
    modifies d
    ensures Wrote(d[..], base, off, w + EncRec(Rec(4, e)), next)
  {
    var size := s.Size();
    WroteTwice(base, off, w, i, EncTag(4) + EncVarint(size), e);
    next := PutHeader(d, i, 4, size);
    next := s.MarshalTo(d, next);
  }

  function PrincipalHead(m: Option<Metadata>, name: bytes, description: bytes): bytes {
    EncAll(MetadataRec(m)) + EncAll(Scalar(2, name)) + EncAll(Scalar(3, description))
  }

  /** The fields in front of the signatures. */
  method PutPrincipalHead(d: array<byte>, off: nat, m: Option<Metadata>, name: bytes, description: bytes)
    returns (i: nat)
    requires off + |PrincipalHead(m, name, description)| <= d.Length && |PrincipalHead(m, name, description)| < TWO_63
    modifies d
    ensures Wrote(d[..], old(d[..]), off, PrincipalHead(m, name, description), i)
  {
    ghost var base := d[..];
    ghost var w1 := EncAll(MetadataRec(m));
    i := PutMetadata(d, off, m);
    i := PutScalar(d, i, 2, name, base, off, w1);
    i := PutScalar(d, i, 3, description, base, off, w1 + EncAll(Scalar(2, name)));
  }

  class PrincipalRecord {
    var metadata: Option<Metadata>
    var name: bytes
    var description: bytes
    var signatures: seq<SignatureRecord>

    constructor ()
      ensures View() == NO_PRINCIPAL
      ensures signatures == []
    {
      metadata, name, description, signatures := None, [], [], [];
    }

    function View(): Principal
      reads this, signatures
    {
      Principal(metadata, name, description, Views(signatures))
    }

    method Size() returns (n: nat)
      requires |EncAll(PrincipalRecs(View()))| < TWO_63
      ensures n == |EncAll(PrincipalRecs(View()))|
    {
      ghost var p := View();
      PrincipalSize(p);
      var m := SizeMetadata(metadata);
      var l := SizeScalar(2, name);
      var j := SizeScalar(3, description);
      var k := SizeSignatures(signatures, p.signatures);
      n := m + l + j + k;
    }

    method MarshalTo(dAtA: array<byte>, off: nat) returns (i: nat)
      requires off + |EncAll(PrincipalRecs(View()))| <= dAtA.Length && |EncAll(PrincipalRecs(View()))| < TWO_63
      modifies dAtA
      ensures i == off + |EncAll(PrincipalRecs(View()))|
      ensures dAtA[..] == Splice(old(dAtA[..]), off, EncAll(PrincipalRecs(View())))
    {
      ghost var p := View();
      PrincipalBytes(p);
      ghost var base := dAtA[..];
      i := PutPrincipalHead(dAtA, off, metadata, name, description);
      i := PutSignatures(dAtA, i, signatures, p.signatures, base, off, PrincipalHead(p.metadata, p.name, p.description));
    }

    method Marshal() returns (dAtA: array<byte>)
      requires |EncAll(PrincipalRecs(View()))| < TWO_63
      ensures fresh(dAtA) && dAtA[..] == EncAll(PrincipalRecs(View()))
    {
      var size := Size();
      dAtA := new byte[size](_ => 0);
      var n := MarshalTo(dAtA, 0);
    }

    method Unmarshal(dAtA: bytes) returns (ok: bool)
      requires |dAtA| < TWO_63
      modifies this
      ensures ok <==> Decode(PrincipalStep, old(View()), dAtA).Some?
      ensures ok ==> View() == Decode(PrincipalStep, old(View()), dAtA).value
      ensures old(signatures) <= signatures
    {
      ghost var target := Decode(PrincipalStep, View(), dAtA);
      var iNdEx := 0;
      assert dAtA[0..] == dAtA;
      while iNdEx < |dAtA|
        invariant iNdEx <= |dAtA|
        invariant old(signatures) <= signatures
        invariant Decode(PrincipalStep, View(), dAtA[iNdEx..]) == target
      {
        PrincipalDispatches(View());
        var fieldNum, body;
        ok, fieldNum, body, iNdEx := ReadField(dAtA, iNdEx, {1, 2, 3, 4}, PrincipalStep, View());
        if !ok {
          return;
        }
        if fieldNum in {1, 2, 3, 4} {
          ok := Assign(fieldNum, body);
          if !ok {
            return;
          }
        }
      }
      return true;
    }

    method Assign(fieldNum: int, body: bytes) returns (ok: bool)
      requires 1 <= fieldNum <= 4 && |body| < TWO_63
      modifies this
      ensures PrincipalStep(old(View()), Field(fieldNum, 2, body)) == if ok then Some(View()) else None
      ensures old(signatures) <= signatures
    {
      match fieldNum {
        case 1 =>
          var d := DecodeMetadata(metadata, body);
          if d.None? {
            return false;
          }
          metadata := d;
        case 2 => name := body;
        case 3 => description := body;
        case _ =>
          ghost var before := Views(signatures);
          var s := new SignatureRecord();
          signatures := signatures + [s];
          ok := s.Unmarshal(body);
          if !ok {
            return;
          }
          assert Views(signatures) == before + [s.View()];
      }
      return true;
    }
  }

  /** Measures the optional metadata record: tag, length prefix and embedded message, or nothing. */
  method SizeMetadata(m: Option<Metadata>) returns (n: nat)
    ensures n == |EncAll(MetadataRec(m))|
  {
    n := 0;
    if m.Some? {
      MetadataSize(m.value);
      EncOne(Rec(1, EncMetadata(m.value)));
      n := SizeRec(Rec(1, EncMetadata(m.value)));
    }
  }

  method PutMetadata(d: array<byte>, off: nat, m: Option<Metadata>) returns (i: nat)
    requires off + |EncAll(MetadataRec(m))| <= d.Length
    modifies d
    ensures Wrote(d[..], old(d[..]), off, EncAll(MetadataRec(m)), i)
  {
    i := off;
    if m.Some? {
      MetadataSize(m.value);
      EncOne(Rec(1, EncMetadata(m.value)));
      i := PutRec(d, off, Rec(1, EncMetadata(m.value)));
    }
  }

  lemma MetadataSize(m: Metadata)
    ensures |EncMetadata(m)| <= 20
  {
    VarintRoundTrip(m.schema, []);
    VarintRoundTrip(8, []);
    var p := VarintPayload(m.schema);
    assert EncPayload(p) == EncVarint(m.schema);
    assert EncField(1, p) == EncVarint(8) + EncPayload(p);
  }

  // ----- A message's bytes are its fields' bytes in order -----

  lemma BindingBytes(b: RoleBinding)
    ensures EncAll(BindingRecs(b)) ==
            EncAll(MetadataRec(b.metadata)) + EncAll(Scalar(2, b.roleId)) + EncAll(Scalar(3, b.signature))
  {
    EncAllConcat(MetadataRec(b.metadata), Scalar(2, b.roleId));
    EncAllConcat(MetadataRec(b.metadata) + Scalar(2, b.roleId), Scalar(3, b.signature));
  }

  lemma PrincipalBytes(p: Principal)
    ensures EncAll(PrincipalRecs(p)) ==
            PrincipalHead(p.metadata, p.name, p.description) + EncAll(Repeated(4, EncSignatures(p.signatures)))
  {
    Concat4(MetadataRec(p.metadata), Scalar(2, p.name), Scalar(3, p.description),
            Repeated(4, EncSignatures(p.signatures)));
  }

  lemma SignatureBytes(s: NamedSignature)
    ensures EncAll(SignatureRecs(s)) ==
            [] + EncAll(Scalar(1, s.name)) + EncAll(Scalar(2, s.description)) + EncAll(Scalar(3, s.signature))
  {
    var r1 := Scalar(1, s.name);
    var r2 := r1 + Scalar(2, s.description);
    EncAllConcat(r1, Scalar(2, s.description));
    EncAllConcat(r2, Scalar(3, s.signature));
  }

  lemma RoleBytes(r: Role)
    ensures EncAll(RoleRecs(r)) ==
            EncAll(MetadataRec(r.metadata)) + EncAll(Scalar(2, r.name)) + EncAll(Scalar(3, r.description))
            + EncAll(Scalar(4, r.address)) + EncAll(Repeated(5, r.roleIds)) + EncAll(Scalar(6, r.owner))
            + EncAll(Repeated(7, r.permissions))
  {
    Concat4(MetadataRec(r.metadata), Scalar(2, r.name), Scalar(3, r.description), Scalar(4, r.address));
    Concat4(MetadataRec(r.metadata) + Scalar(2, r.name) + Scalar(3, r.description) + Scalar(4, r.address),
            Repeated(5, r.roleIds), Scalar(6, r.owner), Repeated(7, r.permissions));
  }

  lemma PrincipalSize(p: Principal)
    ensures |EncAll(PrincipalRecs(p))| ==
            |EncAll(MetadataRec(p.metadata))| + |EncAll(Scalar(2, p.name))| + |EncAll(Scalar(3, p.description))|
            + |EncAll(Repeated(4, EncSignatures(p.signatures)))|
  {
    PrincipalBytes(p);
  }

  lemma Concat4(a: seq<Rec>, b: seq<Rec>, c: seq<Rec>, d: seq<Rec>)
    ensures EncAll(a + b + c + d) == EncAll(a) + EncAll(b) + EncAll(c) + EncAll(d)
  {
    EncAllConcat(a, b);
    EncAllConcat(a + b, c);
    EncAllConcat(a + b + c, d);
  }
}
