/**
 The messages of pkg/rbac/codec.pb.go: what they write, what decoding one field does to them, and
 what decoding gives back. Strings and byte slices are byte sequences; a nil slice and an empty one
 are the same value.
 */
module RbacCodec {
  import opened Wire
  import opened WireCode

  type uint32 = n: int | 0 <= n < TWO_32

  /** `weave.Metadata` has the single field `uint32 schema = 1`. */
  datatype Metadata = Metadata(schema: uint32)

  datatype Role = Role(
    metadata: Option<Metadata>, name: bytes, description: bytes, address: bytes,
    roleIds: seq<bytes>, owner: bytes, permissions: seq<bytes>)

  datatype RoleBinding = RoleBinding(metadata: Option<Metadata>, roleId: bytes, signature: bytes)

  datatype NamedSignature = NamedSignature(name: bytes, description: bytes, signature: bytes)

  datatype Principal = Principal(
    metadata: Option<Metadata>, name: bytes, description: bytes, signatures: seq<NamedSignature>)

  const NO_ROLE := Role(None, [], [], [], [], [], [])
  const NO_BINDING := RoleBinding(None, [], [])
  const NO_SIGNATURE := NamedSignature([], [], [])
  const NO_PRINCIPAL := Principal(None, [], [], [])

  // ----- Encodings -----

  function EncMetadata(m: Metadata): bytes {
    if m.schema == 0 then [] else EncField(1, VarintPayload(m.schema))
  }

  /** An embedded message is written when the pointer is set, even if its encoding is empty. */
  function MetadataRec(m: Option<Metadata>): seq<Rec> {
    if m.None? then [] else [Rec(1, EncMetadata(m.value))]
  }

  function RoleRecs(r: Role): seq<Rec> {
    MetadataRec(r.metadata) + Scalar(2, r.name) + Scalar(3, r.description) + Scalar(4, r.address)
    + Repeated(5, r.roleIds) + Scalar(6, r.owner) + Repeated(7, r.permissions)
  }

  function BindingRecs(b: RoleBinding): seq<Rec> {
    MetadataRec(b.metadata) + Scalar(2, b.roleId) + Scalar(3, b.signature)
  }

  function SignatureRecs(s: NamedSignature): seq<Rec> {
    Scalar(1, s.name) + Scalar(2, s.description) + Scalar(3, s.signature)
  }

  function EncSignatures(ss: seq<NamedSignature>): seq<bytes> {
    seq(|ss|, i requires 0 <= i < |ss| => EncAll(SignatureRecs(ss[i])))
  }

  function PrincipalRecs(p: Principal): seq<Rec> {
    MetadataRec(p.metadata) + Scalar(2, p.name) + Scalar(3, p.description)
    + Repeated(4, EncSignatures(p.signatures))
  }

  // ----- Decoding one field -----

  function MetadataStep(m: Metadata, f: Field): Option<Metadata> {
    if f.num != 1 then Some(m)
    else if f.wireType != 0 then None
    else match Varint(f.body) case None => None case Some((v, _)) => Some(Metadata(v % TWO_32))
  }

  /** The decoders create the embedded message when it is missing and decode into it otherwise. */
  function DecodeMetadata(m: Option<Metadata>, body: bytes): Option<Metadata> {
    Decode(MetadataStep, if m.None? then Metadata(0) else m.value, body)
  }

  function RoleStep(m: Role, f: Field): Option<Role> {
    if !(1 <= f.num <= 7) then Some(m)
    else if f.wireType != 2 then None
    else match f.num
         case 1 => (match DecodeMetadata(m.metadata, f.body)
                    case None => None
                    case Some(x) => Some(m.(metadata := Some(x))))
         case 2 => Some(m.(name := f.body))
         case 3 => Some(m.(description := f.body))
         case 4 => Some(m.(address := f.body))
         case 5 => Some(m.(roleIds := m.roleIds + [f.body]))
         case 6 => Some(m.(owner := f.body))
         case _ => Some(m.(permissions := m.permissions + [f.body]))
  }

  function BindingStep(m: RoleBinding, f: Field): Option<RoleBinding> {
    if !(1 <= f.num <= 3) then Some(m)
    else if f.wireType != 2 then None
    else match f.num
         case 1 => (match DecodeMetadata(m.metadata, f.body)
                    case None => None
                    case Some(x) => Some(m.(metadata := Some(x))))
         case 2 => Some(m.(roleId := f.body))
         case _ => Some(m.(signature := f.body))
  }

  function SignatureStep(m: NamedSignature, f: Field): Option<NamedSignature> {
    if !(1 <= f.num <= 3) then Some(m)
    else if f.wireType != 2 then None
    else match f.num
         case 1 => Some(m.(name := f.body))
         case 2 => Some(m.(description := f.body))
         case _ => Some(m.(signature := f.body))
  }

  function PrincipalStep(m: Principal, f: Field): Option<Principal> {
    if !(1 <= f.num <= 4) then Some(m)
    else if f.wireType != 2 then None
    else match f.num
         case 1 => (match DecodeMetadata(m.metadata, f.body)
                    case None => None
                    case Some(x) => Some(m.(metadata := Some(x))))
         case 2 => Some(m.(name := f.body))
         case 3 => Some(m.(description := f.body))
         case _ => (match Decode(SignatureStep, NO_SIGNATURE, f.body)
                    case None => None
                    case Some(s) => Some(m.(signatures := m.signatures + [s])))
  }

  // ----- Last One Wins: what decoding b's bytes into a gives -----

  function MergeMetadata(a: Option<Metadata>, b: Option<Metadata>): Option<Metadata> {
    if b.None? then a
    else if b.value.schema == 0 then Some(if a.None? then Metadata(0) else a.value)
    else b
  }

  function MergeRole(a: Role, b: Role): Role {
    Role(MergeMetadata(a.metadata, b.metadata), Pick(a.name, b.name), Pick(a.description, b.description),
         Pick(a.address, b.address), a.roleIds + b.roleIds, Pick(a.owner, b.owner),
         a.permissions + b.permissions)
  }

  function MergeBinding(a: RoleBinding, b: RoleBinding): RoleBinding {
    RoleBinding(MergeMetadata(a.metadata, b.metadata), Pick(a.roleId, b.roleId), Pick(a.signature, b.signature))
  }

  function MergeSignature(a: NamedSignature, b: NamedSignature): NamedSignature {
    NamedSignature(Pick(a.name, b.name), Pick(a.description, b.description), Pick(a.signature, b.signature))
  }

  function MergePrincipal(a: Principal, b: Principal): Principal {
    Principal(MergeMetadata(a.metadata, b.metadata), Pick(a.name, b.name), Pick(a.description, b.description),
              a.signatures + b.signatures)
  }

  lemma MetadataMerges(a: Option<Metadata>, b: Metadata)
    ensures DecodeMetadata(a, EncMetadata(b)) == MergeMetadata(a, Some(b))
  {
    if b.schema != 0 {
      var start := if a.None? then Metadata(0) else a.value;
      var p := VarintPayload(b.schema);
      var s := EncMetadata(b);
      SchemaField(b.schema);
      DecodeFirst(MetadataStep, start, s, Field(1, 0, EncVarint(b.schema)), |s|);
      VarintRoundTrip(b.schema, []);
      assert EncVarint(b.schema) + [] == EncVarint(b.schema);
    }
  }

  lemma SchemaField(v: uint64)
    ensures NextField(EncField(1, VarintPayload(v)))
         == Some((Field(1, 0, EncVarint(v)), |EncField(1, VarintPayload(v))|))
  {
    var p := VarintPayload(v);
    assert EncField(1, p) + [] == EncField(1, p);
    TagExact(1, p, []);
    TagParts(1, 0);
    SkipPayloadExact(p, []);
    var n := |EncVarint(8)|;
    assert EncField(1, p)[n..n + |EncVarint(v)|] == EncVarint(v);
  }

  lemma FoldRoleIds(m: Role, ids: seq<bytes>)
    ensures Fold(RoleStep, m, Repeated(5, ids)) == Some(m.(roleIds := m.roleIds + ids))
  {
    var ms := seq(|ids| + 1, i requires 0 <= i <= |ids| => m.(roleIds := m.roleIds + ids[..i]));
    forall i | 0 <= i < |ids| ensures RoleStep(ms[i], Field(5, 2, ids[i])) == Some(ms[i + 1]) {
      assert m.roleIds + ids[..i] + [ids[i]] == m.roleIds + ids[..i + 1];
    }
    FoldRepeated(RoleStep, 5, ids, ms);
    assert m.roleIds + ids[..0] == m.roleIds && ids[..|ids|] == ids;
  }

  lemma FoldPermissions(m: Role, ps: seq<bytes>)
    ensures Fold(RoleStep, m, Repeated(7, ps)) == Some(m.(permissions := m.permissions + ps))
  {
    var ms := seq(|ps| + 1, i requires 0 <= i <= |ps| => m.(permissions := m.permissions + ps[..i]));
    forall i | 0 <= i < |ps| ensures RoleStep(ms[i], Field(7, 2, ps[i])) == Some(ms[i + 1]) {
      assert m.permissions + ps[..i] + [ps[i]] == m.permissions + ps[..i + 1];
    }
    FoldRepeated(RoleStep, 7, ps, ms);
    assert m.permissions + ps[..0] == m.permissions && ps[..|ps|] == ps;
  }

  lemma RoleMerges(a: Role, b: Role)
    ensures Fold(RoleStep, a, RoleRecs(b)) == Some(MergeRole(a, b))
  {
    var m1 := a.(metadata := MergeMetadata(a.metadata, b.metadata));
    var m2 := m1.(name := Pick(a.name, b.name));
    var m3 := m2.(description := Pick(a.description, b.description));
    var m4 := m3.(address := Pick(a.address, b.address));
    var m5 := m4.(roleIds := a.roleIds + b.roleIds);
    var m6 := m5.(owner := Pick(a.owner, b.owner));
    var m7 := m6.(permissions := a.permissions + b.permissions);
    if b.metadata.Some? { MetadataMerges(a.metadata, b.metadata.value); }
    var r1 := MetadataRec(b.metadata);
    var r2 := r1 + Scalar(2, b.name);
    var r3 := r2 + Scalar(3, b.description);
    var r4 := r3 + Scalar(4, b.address);
    var r5 := r4 + Repeated(5, b.roleIds);
    var r6 := r5 + Scalar(6, b.owner);
    FoldThen(RoleStep, a, r1, Scalar(2, b.name), m1, m2);
    FoldThen(RoleStep, a, r2, Scalar(3, b.description), m2, m3);
    FoldThen(RoleStep, a, r3, Scalar(4, b.address), m3, m4);
    FoldRoleIds(m4, b.roleIds);
    FoldThen(RoleStep, a, r4, Repeated(5, b.roleIds), m4, m5);
    FoldThen(RoleStep, a, r5, Scalar(6, b.owner), m5, m6);
    FoldPermissions(m6, b.permissions);
    FoldThen(RoleStep, a, r6, Repeated(7, b.permissions), m6, m7);
  }

  lemma BindingMerges(a: RoleBinding, b: RoleBinding)
    ensures Fold(BindingStep, a, BindingRecs(b)) == Some(MergeBinding(a, b))
  {
    var m1 := a.(metadata := MergeMetadata(a.metadata, b.metadata));
    var m2 := m1.(roleId := Pick(a.roleId, b.roleId));
    var m3 := m2.(signature := Pick(a.signature, b.signature));
    if b.metadata.Some? { MetadataMerges(a.metadata, b.metadata.value); }
    var r1 := MetadataRec(b.metadata);
    FoldThen(BindingStep, a, r1, Scalar(2, b.roleId), m1, m2);
    FoldThen(BindingStep, a, r1 + Scalar(2, b.roleId), Scalar(3, b.signature), m2, m3);
  }

  lemma SignatureMerges(a: NamedSignature, b: NamedSignature)
    ensures Fold(SignatureStep, a, SignatureRecs(b)) == Some(MergeSignature(a, b))
  {
    var m1 := a.(name := Pick(a.name, b.name));
    var m2 := m1.(description := Pick(a.description, b.description));
    var m3 := m2.(signature := Pick(a.signature, b.signature));
    var r1 := Scalar(1, b.name);
    FoldThen(SignatureStep, a, r1, Scalar(2, b.description), m1, m2);
    FoldThen(SignatureStep, a, r1 + Scalar(2, b.description), Scalar(3, b.signature), m2, m3);
  }

  lemma SignatureAppended(m: Principal, s: NamedSignature)
    requires |EncAll(SignatureRecs(s))| < TWO_63
    ensures PrincipalStep(m, Field(4, 2, EncAll(SignatureRecs(s)))) == Some(m.(signatures := m.signatures + [s]))
  {
    SignatureRoundTrip(s);
  }

  lemma OneMore<T>(a: seq<T>, b: seq<T>, i: nat)
    requires i < |b|
    ensures a + b[..i] + [b[i]] == a + b[..i + 1]
  {
  }

  lemma SignatureTurn(m: Principal, ss: seq<NamedSignature>, i: nat)
    requires i < |ss| && |EncAll(SignatureRecs(ss[i]))| < TWO_63
    ensures PrincipalStep(m.(signatures := m.signatures + ss[..i]), Field(4, 2, EncAll(SignatureRecs(ss[i]))))
         == Some(m.(signatures := m.signatures + ss[..i + 1]))
  {
    SignatureAppended(m.(signatures := m.signatures + ss[..i]), ss[i]);
    OneMore(m.signatures, ss, i);
  }

  /** Nested messages round-trip inside the repeated field, empty ones included. */
  lemma FoldSignatures(m: Principal, ss: seq<NamedSignature>)
    requires forall s | s in ss :: |EncAll(SignatureRecs(s))| < TWO_63
    ensures Fold(PrincipalStep, m, Repeated(4, EncSignatures(ss))) == Some(m.(signatures := m.signatures + ss))
  {
    var es := EncSignatures(ss);
    var ms := seq(|ss| + 1, i requires 0 <= i <= |ss| => m.(signatures := m.signatures + ss[..i]));
    forall i | 0 <= i < |ss| ensures PrincipalStep(ms[i], Field(4, 2, es[i])) == Some(ms[i + 1]) {
      SignatureTurn(m, ss, i);
    }
    FoldRepeated(PrincipalStep, 4, es, ms);
    assert m.signatures + ss[..0] == m.signatures && ss[..|ss|] == ss;
  }

  lemma PrincipalMerges(a: Principal, b: Principal)
    requires |EncAll(PrincipalRecs(b))| < TWO_63
    ensures Fold(PrincipalStep, a, PrincipalRecs(b)) == Some(MergePrincipal(a, b))
  {
    var m1 := a.(metadata := MergeMetadata(a.metadata, b.metadata));
    var m2 := m1.(name := Pick(a.name, b.name));
    var m3 := m2.(description := Pick(a.description, b.description));
    var m4 := m3.(signatures := a.signatures + b.signatures);
    if b.metadata.Some? { MetadataMerges(a.metadata, b.metadata.value); }
    var r1 := MetadataRec(b.metadata);
    var r2 := r1 + Scalar(2, b.name);
    var r3 := r2 + Scalar(3, b.description);
    FoldThen(PrincipalStep, a, r1, Scalar(2, b.name), m1, m2);
    FoldThen(PrincipalStep, a, r2, Scalar(3, b.description), m2, m3);
    RepeatedBodiesFit(r3, 4, EncSignatures(b.signatures));
    forall s | s in b.signatures ensures |EncAll(SignatureRecs(s))| < TWO_63 {
      var i :| 0 <= i < |b.signatures| && b.signatures[i] == s;
      assert EncSignatures(b.signatures)[i] in EncSignatures(b.signatures);
    }
    FoldSignatures(m3, b.signatures);
    FoldThen(PrincipalStep, a, r3, Repeated(4, EncSignatures(b.signatures)), m3, m4);
  }

  // ----- Decoding what was encoded -----

  lemma RoleWritable(b: Role)
    ensures Writable(RoleRecs(b))
  {
    RepeatedWritable(5, b.roleIds);
    RepeatedWritable(7, b.permissions);
  }

  /** Decoding a role's bytes into any role gives the merge of the two. */
  lemma RoleDecodes(a: Role, b: Role)
    requires |EncAll(RoleRecs(b))| < TWO_63
    ensures Decode(RoleStep, a, EncAll(RoleRecs(b))) == Some(MergeRole(a, b))
  {
    RoleWritable(b);
    RoleMerges(a, b);
    DecodeOfRecs(RoleStep, a, RoleRecs(b));
  }

  lemma BindingDecodes(a: RoleBinding, b: RoleBinding)
    requires |EncAll(BindingRecs(b))| < TWO_63
    ensures Decode(BindingStep, a, EncAll(BindingRecs(b))) == Some(MergeBinding(a, b))
  {
    BindingMerges(a, b);
    DecodeOfRecs(BindingStep, a, BindingRecs(b));
  }

  lemma SignatureDecodes(a: NamedSignature, b: NamedSignature)
    requires |EncAll(SignatureRecs(b))| < TWO_63
    ensures Decode(SignatureStep, a, EncAll(SignatureRecs(b))) == Some(MergeSignature(a, b))
  {
    SignatureMerges(a, b);
    DecodeOfRecs(SignatureStep, a, SignatureRecs(b));
  }

  lemma PrincipalDecodes(a: Principal, b: Principal)
    requires |EncAll(PrincipalRecs(b))| < TWO_63
    ensures Decode(PrincipalStep, a, EncAll(PrincipalRecs(b))) == Some(MergePrincipal(a, b))
  {
    RepeatedWritable(4, EncSignatures(b.signatures));
    PrincipalMerges(a, b);
    DecodeOfRecs(PrincipalStep, a, PrincipalRecs(b));
  }

  /** Merging into the empty message changes nothing. */
  lemma NothingMerged(r: Role, b: RoleBinding, p: Principal, s: NamedSignature)
    ensures MergeRole(NO_ROLE, r) == r && MergeBinding(NO_BINDING, b) == b
    ensures MergePrincipal(NO_PRINCIPAL, p) == p && MergeSignature(NO_SIGNATURE, s) == s
  {
    assert [] + r.roleIds == r.roleIds && [] + r.permissions == r.permissions;
    assert [] + p.signatures == p.signatures;
  }

  /** Every message of the package is read back equal from its own encoding. */
  lemma RoleRoundTrip(r: Role)
    requires |EncAll(RoleRecs(r))| < TWO_63
    ensures Decode(RoleStep, NO_ROLE, EncAll(RoleRecs(r))) == Some(r)
  {
    RoleDecodes(NO_ROLE, r);
    NothingMerged(r, NO_BINDING, NO_PRINCIPAL, NO_SIGNATURE);
  }

  lemma BindingRoundTrip(b: RoleBinding)
    requires |EncAll(BindingRecs(b))| < TWO_63
    ensures Decode(BindingStep, NO_BINDING, EncAll(BindingRecs(b))) == Some(b)
  {
    BindingDecodes(NO_BINDING, b);
    NothingMerged(NO_ROLE, b, NO_PRINCIPAL, NO_SIGNATURE);
  }

  lemma PrincipalRoundTrip(p: Principal)
    requires |EncAll(PrincipalRecs(p))| < TWO_63
    ensures Decode(PrincipalStep, NO_PRINCIPAL, EncAll(PrincipalRecs(p))) == Some(p)
  {
    PrincipalDecodes(NO_PRINCIPAL, p);
    NothingMerged(NO_ROLE, NO_BINDING, p, NO_SIGNATURE);
  }

  lemma SignatureRoundTrip(s: NamedSignature)
    requires |EncAll(SignatureRecs(s))| < TWO_63
    ensures Decode(SignatureStep, NO_SIGNATURE, EncAll(SignatureRecs(s))) == Some(s)
  {
    SignatureDecodes(NO_SIGNATURE, s);
  }

  /** Last One Wins: concatenated encodings decode to the merge of the two messages. */
  lemma RoleConcatenation(a: Role, b: Role)
    requires |EncAll(RoleRecs(a))| < TWO_63 && |EncAll(RoleRecs(b))| < TWO_63
    ensures Decode(RoleStep, NO_ROLE, EncAll(RoleRecs(a)) + EncAll(RoleRecs(b))) == Some(MergeRole(a, b))
  {
    RoleRoundTrip(a);
    RoleDecodes(a, b);
    DecodeConcat(RoleStep, NO_ROLE, EncAll(RoleRecs(a)), EncAll(RoleRecs(b)));
  }

  lemma PrincipalConcatenation(a: Principal, b: Principal)
    requires |EncAll(PrincipalRecs(a))| < TWO_63 && |EncAll(PrincipalRecs(b))| < TWO_63
    ensures Decode(PrincipalStep, NO_PRINCIPAL, EncAll(PrincipalRecs(a)) + EncAll(PrincipalRecs(b)))
         == Some(MergePrincipal(a, b))
  {
    PrincipalRoundTrip(a);
    PrincipalDecodes(a, b);
    DecodeConcat(PrincipalStep, NO_PRINCIPAL, EncAll(PrincipalRecs(a)), EncAll(PrincipalRecs(b)));
  }

  /** A field number a role does not have, with any payload, is invisible between two accepted inputs. */
  lemma RoleIgnoresUnknown(m: Role, x: bytes, num: nat, p: Payload, y: bytes)
    requires Decode(RoleStep, m, x).Some?
    requires FieldNum(num) && num > 7 && WellFormed(p)
    ensures Decode(RoleStep, m, x + EncField(num, p) + y) == Decode(RoleStep, m, x + y)
  {
    UnknownFieldIsWhole(num, p);
    UnknownFieldTransparent(RoleStep, m, x, EncField(num, p), y);
  }

  /** The same for the smaller messages, whose last numbers are 3, 3 and 4. */
  lemma SmallMessagesIgnoreUnknown(b: RoleBinding, s: NamedSignature, q: Principal,
                                   x: bytes, num: nat, p: Payload, y: bytes)
    requires FieldNum(num) && num > 3 && WellFormed(p)
    ensures Decode(BindingStep, b, x).Some? ==>
            Decode(BindingStep, b, x + EncField(num, p) + y) == Decode(BindingStep, b, x + y)
    ensures Decode(SignatureStep, s, x).Some? ==>
            Decode(SignatureStep, s, x + EncField(num, p) + y) == Decode(SignatureStep, s, x + y)
    ensures num > 4 && Decode(PrincipalStep, q, x).Some? ==>
            Decode(PrincipalStep, q, x + EncField(num, p) + y) == Decode(PrincipalStep, q, x + y)
  {
    var u := EncField(num, p);
    UnknownFieldIsWhole(num, p);
    if Decode(BindingStep, b, x).Some? { UnknownFieldTransparent(BindingStep, b, x, u, y); }
    if Decode(SignatureStep, s, x).Some? { UnknownFieldTransparent(SignatureStep, s, x, u, y); }
    if num > 4 && Decode(PrincipalStep, q, x).Some? { UnknownFieldTransparent(PrincipalStep, q, x, u, y); }
  }

  // ----- The bytes on the wire -----

  function MetadataOnWire(m: Metadata): bytes {
    if m.schema == 0 then [] else [0x08] + EncVarint(m.schema)
  }

  lemma MetadataIsBytes(m: Option<Metadata>)
    ensures EncAll(MetadataRec(m)) == if m.None? then [] else Tagged([0x0a], MetadataOnWire(m.value))
  {
    SmallTags();
    if m.Some? {
      SchemaBytes(m.value.schema);
      assert EncAll(MetadataRec(m)) == EncRec(Rec(1, EncMetadata(m.value))) + EncAll([]);
    }
  }

  /** The written role, byte by byte. */
  lemma RoleLayout(r: Role)
    ensures EncAll(RoleRecs(r)) ==
            (if r.metadata.None? then [] else Tagged([0x0a], MetadataOnWire(r.metadata.value)))
            + TaggedIfAny([0x12], r.name) + TaggedIfAny([0x1a], r.description) + TaggedIfAny([0x22], r.address)
            + TaggedEach([0x2a], r.roleIds) + TaggedIfAny([0x32], r.owner) + TaggedEach([0x3a], r.permissions)
  {
    SmallTags();
    MetadataIsBytes(r.metadata);
    ScalarIsTagged(2, r.name);
    ScalarIsTagged(3, r.description);
    ScalarIsTagged(4, r.address);
    RepeatedIsTagged(5, r.roleIds);
    ScalarIsTagged(6, r.owner);
    RepeatedIsTagged(7, r.permissions);
    var r1 := MetadataRec(r.metadata);
    var r2 := r1 + Scalar(2, r.name);
    var r3 := r2 + Scalar(3, r.description);
    var r4 := r3 + Scalar(4, r.address);
    var r5 := r4 + Repeated(5, r.roleIds);
    var r6 := r5 + Scalar(6, r.owner);
    EncAllConcat(r1, Scalar(2, r.name));
    EncAllConcat(r2, Scalar(3, r.description));
    EncAllConcat(r3, Scalar(4, r.address));
    EncAllConcat(r4, Repeated(5, r.roleIds));
    EncAllConcat(r5, Scalar(6, r.owner));
    EncAllConcat(r6, Repeated(7, r.permissions));
  }

  lemma BindingLayout(b: RoleBinding)
    ensures EncAll(BindingRecs(b)) ==
            (if b.metadata.None? then [] else Tagged([0x0a], MetadataOnWire(b.metadata.value)))
            + TaggedIfAny([0x12], b.roleId) + TaggedIfAny([0x1a], b.signature)
  {
    SmallTags();
    MetadataIsBytes(b.metadata);
    ScalarIsTagged(2, b.roleId);
    ScalarIsTagged(3, b.signature);
    EncAllConcat(MetadataRec(b.metadata), Scalar(2, b.roleId));
    EncAllConcat(MetadataRec(b.metadata) + Scalar(2, b.roleId), Scalar(3, b.signature));
  }

  function SignatureOnWire(s: NamedSignature): bytes {
    TaggedIfAny([0x0a], s.name) + TaggedIfAny([0x12], s.description) + TaggedIfAny([0x1a], s.signature)
  }

  lemma SignatureLayout(s: NamedSignature)
    ensures EncAll(SignatureRecs(s)) == SignatureOnWire(s)
  {
    SmallTags();
    ScalarIsTagged(1, s.name);
    ScalarIsTagged(2, s.description);
    ScalarIsTagged(3, s.signature);
    EncAllConcat(Scalar(1, s.name), Scalar(2, s.description));
    EncAllConcat(Scalar(1, s.name) + Scalar(2, s.description), Scalar(3, s.signature));
  }

  lemma PrincipalLayout(p: Principal)
    ensures EncAll(PrincipalRecs(p)) ==
            (if p.metadata.None? then [] else Tagged([0x0a], MetadataOnWire(p.metadata.value)))
            + TaggedIfAny([0x12], p.name) + TaggedIfAny([0x1a], p.description)
            + TaggedEach([0x22], seq(|p.signatures|, i requires 0 <= i < |p.signatures| => SignatureOnWire(p.signatures[i])))
  {
    SmallTags();
    MetadataIsBytes(p.metadata);
    ScalarIsTagged(2, p.name);
    ScalarIsTagged(3, p.description);
    var es := seq(|p.signatures|, i requires 0 <= i < |p.signatures| => SignatureOnWire(p.signatures[i]));
    assert EncSignatures(p.signatures) == es by {
      forall i | 0 <= i < |es| ensures EncSignatures(p.signatures)[i] == es[i] { SignatureLayout(p.signatures[i]); }
    }
    RepeatedIsTagged(4, es);
    var r1 := MetadataRec(p.metadata);
    var r2 := r1 + Scalar(2, p.name);
    var r3 := r2 + Scalar(3, p.description);
    EncAllConcat(r1, Scalar(2, p.name));
    EncAllConcat(r2, Scalar(3, p.description));
    EncAllConcat(r3, Repeated(4, es));
  }

  /** One tagged field read into any message, from any input that goes on with `rest`. */
  lemma ReadsTagged<M>(step: (M, Field) -> Option<M>, m: M, num: nat, b: bytes, rest: bytes)
    requires FieldNum(num) && |b| < TWO_63
    ensures Decode(step, m, Tagged(EncTag(num), b) + rest) ==
            match step(m, Field(num, 2, b)) case None => None case Some(m') => Decode(step, m', rest)
  {
    DecodeRec(step, m, Rec(num, b), rest);
  }

  lemma ReadsAs<M>(step: (M, Field) -> Option<M>, m: M, tag: byte, b: bytes, rest: bytes, m': M)
    requires tag in {0x0a, 0x12, 0x1a, 0x22, 0x2a, 0x32, 0x3a} && |b| < TWO_63
    requires step(m, Field(tag / 8, 2, b)) == Some(m')
    ensures Decode(step, m, Tagged([tag], b) + rest) == Decode(step, m', rest)
  {
    TagByte(tag);
    ReadsTagged(step, m, tag / 8, b, rest);
  }

  /** What every field of a role does when it is read, an empty one included; `rest` is read afterwards. */
  lemma RoleReads(m: Role, tag: byte, b: bytes, rest: bytes)
    requires |b| < TWO_63 && tag in {0x12, 0x1a, 0x22, 0x2a, 0x32, 0x3a}
    ensures Decode(RoleStep, m, Tagged([tag], b) + rest) ==
            Decode(RoleStep, match tag
                             case 0x12 => m.(name := b)
                             case 0x1a => m.(description := b)
                             case 0x22 => m.(address := b)
                             case 0x2a => m.(roleIds := m.roleIds + [b])
                             case 0x32 => m.(owner := b)
                             case _ => m.(permissions := m.permissions + [b]), rest)
  {
    var m' := match tag
              case 0x12 => m.(name := b)
              case 0x1a => m.(description := b)
              case 0x22 => m.(address := b)
              case 0x2a => m.(roleIds := m.roleIds + [b])
              case 0x32 => m.(owner := b)
              case _ => m.(permissions := m.permissions + [b]);
    ReadsAs(RoleStep, m, tag, b, rest, m');
  }

  lemma BindingReads(m: RoleBinding, tag: byte, b: bytes, rest: bytes)
    requires |b| < TWO_63 && tag in {0x12, 0x1a}
    ensures Decode(BindingStep, m, Tagged([tag], b) + rest) ==
            Decode(BindingStep, if tag == 0x12 then m.(roleId := b) else m.(signature := b), rest)
  {
    ReadsAs(BindingStep, m, tag, b, rest, if tag == 0x12 then m.(roleId := b) else m.(signature := b));
  }

  lemma SignatureReads(m: NamedSignature, tag: byte, b: bytes, rest: bytes)
    requires |b| < TWO_63 && tag in {0x0a, 0x12, 0x1a}
    ensures Decode(SignatureStep, m, Tagged([tag], b) + rest) ==
            Decode(SignatureStep, match tag
                                  case 0x0a => m.(name := b)
                                  case 0x12 => m.(description := b)
                                  case _ => m.(signature := b), rest)
  {
    var m' := match tag
              case 0x0a => m.(name := b)
              case 0x12 => m.(description := b)
              case _ => m.(signature := b);
    ReadsAs(SignatureStep, m, tag, b, rest, m');
  }

  lemma PrincipalReads(m: Principal, tag: byte, b: bytes, rest: bytes)
    requires |b| < TWO_63 && tag in {0x12, 0x1a}
    ensures Decode(PrincipalStep, m, Tagged([tag], b) + rest) ==
            Decode(PrincipalStep, if tag == 0x12 then m.(name := b) else m.(description := b), rest)
  {
    ReadsAs(PrincipalStep, m, tag, b, rest, if tag == 0x12 then m.(name := b) else m.(description := b));
  }

  /** A nested signature is appended if its bytes decode and ends the decoding if they do not. */
  lemma NestedReads(m: Principal, b: bytes, rest: bytes)
    requires |b| < TWO_63
    ensures Decode(PrincipalStep, m, Tagged([0x22], b) + rest) ==
            match Decode(SignatureStep, NO_SIGNATURE, b)
            case None => None
            case Some(s) => Decode(PrincipalStep, m.(signatures := m.signatures + [s]), rest)
  {
    SmallTags();
    ReadsTagged(PrincipalStep, m, 4, b, rest);
  }

  /** A schema version is cut to 32 bits, and the last one counts. */
  lemma {:induction false} SchemaReads(m: Metadata, v: uint64, rest: bytes)
    ensures Decode(MetadataStep, m, [0x08] + EncVarint(v) + rest) == Decode(MetadataStep, Metadata(v % 0x1_0000_0000), rest)
  {
    var u := EncField(1, VarintPayload(v));
    SchemaBytes(v);
    SchemaField(v);
    NextFieldStable(u, rest);
    assert (u + rest)[|u|..] == rest;
    VarintRoundTrip(v, []);
    assert EncVarint(v) + [] == EncVarint(v);
  }

  lemma SchemaBytes(v: uint64)
    ensures EncField(1, VarintPayload(v)) == [0x08] + EncVarint(v)
  {
    assert EncVarint(8) == [8];
    assert EncVarint(1 * 8 + 0) == [8];
  }

  /** The metadata of all three messages that have it: merged into what is there, or the end of decoding. */
  lemma MetadataReads(r: Role, q: RoleBinding, p: Principal, b: bytes, rest: bytes)
    requires |b| < TWO_63
    ensures Decode(RoleStep, r, Tagged([0x0a], b) + rest) ==
            match Decode(MetadataStep, if r.metadata.None? then Metadata(0) else r.metadata.value, b)
            case None => None
            case Some(x) => Decode(RoleStep, r.(metadata := Some(x)), rest)
    ensures Decode(BindingStep, q, Tagged([0x0a], b) + rest) ==
            match Decode(MetadataStep, if q.metadata.None? then Metadata(0) else q.metadata.value, b)
            case None => None
            case Some(x) => Decode(BindingStep, q.(metadata := Some(x)), rest)
    ensures Decode(PrincipalStep, p, Tagged([0x0a], b) + rest) ==
            match Decode(MetadataStep, if p.metadata.None? then Metadata(0) else p.metadata.value, b)
            case None => None
            case Some(x) => Decode(PrincipalStep, p.(metadata := Some(x)), rest)
  {
    SmallTags();
    ReadsTagged(RoleStep, r, 1, b, rest);
    ReadsTagged(BindingStep, q, 1, b, rest);
    ReadsTagged(PrincipalStep, p, 1, b, rest);
  }

  /** A known number with any other wire type than 2 ends the decoding, whatever its payload. */
  lemma OtherWireTypesFail(r: Role, b: RoleBinding, s: NamedSignature, q: Principal, num: nat, p: Payload, rest: bytes)
    requires WellFormed(p) && WireTypeOf(p) != 2 && 1 <= num <= 7
    ensures Decode(RoleStep, r, EncField(num, p) + rest) == None
    ensures num <= 3 ==> Decode(BindingStep, b, EncField(num, p) + rest) == None
    ensures num <= 3 ==> Decode(SignatureStep, s, EncField(num, p) + rest) == None
    ensures num <= 4 ==> Decode(PrincipalStep, q, EncField(num, p) + rest) == None
  {
    FieldHasWireType(num, p, rest);
  }
}
