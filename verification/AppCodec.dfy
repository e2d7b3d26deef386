/**
 The messages of pkg/app/codec.pb.go: Tx, ProposalOptions and the two batch messages with their
 one-of unions. Messages of the weave packages are opaque, already encoded byte strings; `Accepts`
 says which byte strings their own decoders take.
 */
module AppCodec {
  import opened Wire

  /** The message types that occur in some one-of, with the same field number in every one-of. */
  datatype Kind =
    | CashSend | EscrowCreate | EscrowRelease | EscrowReturn | EscrowUpdateParties
    | MultisigCreate | MultisigUpdate | ValidatorsApplyDiff | CurrencyCreate
    | DistributionCreate | Distribute | DistributionReset | UpgradeSchema
    | AswapCreate | AswapRelease | AswapReturn
    | GovCreateProposal | GovDeleteProposal | GovVote | GovUpdateElectorate | GovUpdateElectionRule
    | GovCreateTextResolution | CreateArtifact | DeleteArtifact

  datatype Foreign = FeeInfo | StdSignature | Message(kind: Kind)

  /** Which byte strings the decoders of the foreign messages take, or which messages their encoders write. */
  type Accepts = (Foreign, bytes) -> bool

  function Num(k: Kind): nat {
    match k
    case CashSend => 51 case EscrowCreate => 52 case EscrowRelease => 53 case EscrowReturn => 54
    case EscrowUpdateParties => 55 case MultisigCreate => 56 case MultisigUpdate => 57
    case ValidatorsApplyDiff => 58 case CurrencyCreate => 59
    case DistributionCreate => 66 case Distribute => 67 case DistributionReset => 68 case UpgradeSchema => 69
    case AswapCreate => 70 case AswapRelease => 71 case AswapReturn => 72
    case GovCreateProposal => 73 case GovDeleteProposal => 74 case GovVote => 75
    case GovUpdateElectorate => 77 case GovUpdateElectionRule => 78 case GovCreateTextResolution => 79
    case CreateArtifact => 100 case DeleteArtifact => 101
  }

  const BATCH_NUM := 60

  function KindOf(n: int): Option<Kind> {
    match n
    case 51 => Some(CashSend) case 52 => Some(EscrowCreate) case 53 => Some(EscrowRelease)
    case 54 => Some(EscrowReturn) case 55 => Some(EscrowUpdateParties) case 56 => Some(MultisigCreate)
    case 57 => Some(MultisigUpdate) case 58 => Some(ValidatorsApplyDiff) case 59 => Some(CurrencyCreate)
    case 66 => Some(DistributionCreate) case 67 => Some(Distribute) case 68 => Some(DistributionReset)
    case 69 => Some(UpgradeSchema) case 70 => Some(AswapCreate) case 71 => Some(AswapRelease)
    case 72 => Some(AswapReturn) case 73 => Some(GovCreateProposal) case 74 => Some(GovDeleteProposal)
    case 75 => Some(GovVote) case 77 => Some(GovUpdateElectorate) case 78 => Some(GovUpdateElectionRule)
    case 79 => Some(GovCreateTextResolution) case 100 => Some(CreateArtifact) case 101 => Some(DeleteArtifact)
    case _ => None
  }

  /** The field number tells the message type. */
  lemma KindOfNum(k: Kind)
    ensures KindOf(Num(k)) == Some(k) && FieldNum(Num(k)) && Num(k) > 50 && Num(k) != BATCH_NUM
  {
  }

  lemma NumOfKind(n: int)
    requires KindOf(n).Some?
    ensures Num(KindOf(n).value) == n
  {
  }

  /** What a one-of holds when it is set. */
  datatype Leaf = Leaf(kind: Kind, body: bytes)

  /** `ExecuteBatchMsg_Union` and `ExecuteProposalBatchMsg_Union`; `None` is a nil Sum. */
  type Union = Option<Leaf>

  /** The one-of of Tx and of ProposalOptions: a message, or the batch message under number 60. */
  datatype Sum = Single(leaf: Leaf) | Batch(messages: seq<Union>)

  datatype Tx = Tx(fees: Option<bytes>, signatures: seq<bytes>, multisig: seq<bytes>, sum: Option<Sum>)

  const NO_TX := Tx(None, [], [], None)

  /** Which message types a one-of has cases for, directly and inside its batch. */
  datatype Schema = Schema(direct: set<Kind>, batch: set<Kind>)

  const BATCH_KINDS: set<Kind> := {
    CashSend, EscrowCreate, EscrowRelease, EscrowReturn, EscrowUpdateParties, MultisigCreate, MultisigUpdate,
    ValidatorsApplyDiff, CurrencyCreate, DistributionCreate, Distribute, DistributionReset}

  const TX_KINDS: set<Kind> := BATCH_KINDS + {
    UpgradeSchema, AswapCreate, AswapRelease, AswapReturn, GovCreateProposal, GovDeleteProposal, GovVote,
    GovUpdateElectorate, GovUpdateElectionRule, CreateArtifact, DeleteArtifact}

  const PROPOSAL_BATCH_KINDS: set<Kind> := {
    CashSend, EscrowRelease, EscrowUpdateParties, MultisigUpdate, ValidatorsApplyDiff, DistributionCreate,
    Distribute, DistributionReset, GovUpdateElectorate, GovUpdateElectionRule, GovCreateTextResolution}

  const OPTION_KINDS: set<Kind> := PROPOSAL_BATCH_KINDS + {CurrencyCreate, UpgradeSchema}

  const TX_SCHEMA := Schema(TX_KINDS, BATCH_KINDS)
  const OPTION_SCHEMA := Schema(OPTION_KINDS, PROPOSAL_BATCH_KINDS)

  // ----- Encodings -----

  function LeafRec(l: Leaf): Rec {
    Rec(Num(l.kind), l.body)
  }

  function UnionRecs(u: Union): seq<Rec> {
    if u.None? then [] else [LeafRec(u.value)]
  }

  function EncUnions(us: seq<Union>): seq<bytes> {
    seq(|us|, i requires 0 <= i < |us| => EncAll(UnionRecs(us[i])))
  }

  function BatchRecs(us: seq<Union>): seq<Rec> {
    Repeated(1, EncUnions(us))
  }

  function SumRec(s: Sum): Rec {
    match s
    case Single(l) => LeafRec(l)
    case Batch(us) => Rec(BATCH_NUM, EncAll(BatchRecs(us)))
  }

  function SumRecs(s: Option<Sum>): seq<Rec> {
    if s.None? then [] else [SumRec(s.value)]
  }

  function FeeRecs(fees: Option<bytes>): seq<Rec> {
    if fees.None? then [] else [Rec(1, fees.value)]
  }

  function TxRecs(tx: Tx): seq<Rec> {
    FeeRecs(tx.fees) + Repeated(2, tx.signatures) + Repeated(4, tx.multisig) + SumRecs(tx.sum)
  }

  // ----- Decoding one field -----

  /** A one-of case creates a fresh message and replaces what was set before. */
  function UnionField(accepts: Accepts, kinds: set<Kind>, m: Union, f: Field): Option<Union> {
    match KindOf(f.num)
    case None => Some(m)
    case Some(k) =>
      if k !in kinds then Some(m)
      else if f.wireType == 2 && accepts(Message(k), f.body) then Some(Some(Leaf(k, f.body)))
      else None
  }

  function UnionStep(accepts: Accepts, kinds: set<Kind>): (Union, Field) -> Option<Union> {
    (m, f) => UnionField(accepts, kinds, m, f)
  }

  function BatchField(accepts: Accepts, kinds: set<Kind>, m: seq<Union>, f: Field): Option<seq<Union>> {
    if f.num != 1 then Some(m)
    else if f.wireType != 2 then None
    else match Decode(UnionStep(accepts, kinds), None, f.body)
         case None => None
         case Some(u) => Some(m + [u])
  }

  function BatchStep(accepts: Accepts, kinds: set<Kind>): (seq<Union>, Field) -> Option<seq<Union>> {
    (m, f) => BatchField(accepts, kinds, m, f)
  }

  function SumField(accepts: Accepts, schema: Schema, m: Option<Sum>, f: Field): Option<Option<Sum>> {
    if f.num == BATCH_NUM then
      if f.wireType != 2 then None
      else match Decode(BatchStep(accepts, schema.batch), [], f.body)
           case None => None
           case Some(us) => Some(Some(Batch(us)))
    else match UnionField(accepts, schema.direct, None, f)
         case None => None
         case Some(None) => Some(m)
         case Some(Some(l)) => Some(Some(Single(l)))
  }

  function OptionStep(accepts: Accepts): (Option<Sum>, Field) -> Option<Option<Sum>> {
    (m, f) => SumField(accepts, OPTION_SCHEMA, m, f)
  }

  function TxField(accepts: Accepts, m: Tx, f: Field): Option<Tx> {
    if f.num in {1, 2, 4} then
      if f.wireType != 2 then None
      else match f.num
           case 1 =>
             // decoding into the existing message is decoding what it was decoded from, then the rest
             if accepts(FeeInfo, f.body)
             then Some(m.(fees := Some((if m.fees.None? then [] else m.fees.value) + f.body))) else None
           case 2 => if accepts(StdSignature, f.body) then Some(m.(signatures := m.signatures + [f.body])) else None
           case _ => Some(m.(multisig := m.multisig + [f.body]))
    else match SumField(accepts, TX_SCHEMA, m.sum, f)
         case None => None
         case Some(s) => Some(m.(sum := s))
  }

  function TxStep(accepts: Accepts): (Tx, Field) -> Option<Tx> {
    (m, f) => TxField(accepts, m, f)
  }

  // ----- Messages the generated encoders are called on -----

  ghost predicate LeafOk(accepts: Accepts, kinds: set<Kind>, l: Leaf) {
    l.kind in kinds && accepts(Message(l.kind), l.body)
  }

  ghost predicate UnionsOk(accepts: Accepts, kinds: set<Kind>, us: seq<Union>) {
    forall u | u in us :: u.Some? ==> LeafOk(accepts, kinds, u.value)
  }

  ghost predicate SumOk(accepts: Accepts, schema: Schema, s: Option<Sum>) {
    match s
    case None => true
    case Some(Single(l)) => LeafOk(accepts, schema.direct, l)
    case Some(Batch(us)) => UnionsOk(accepts, schema.batch, us)
  }

  ghost predicate TxOk(accepts: Accepts, tx: Tx) {
    && (tx.fees.Some? ==> accepts(FeeInfo, tx.fees.value))
    && (forall s | s in tx.signatures :: accepts(StdSignature, s))
    && SumOk(accepts, TX_SCHEMA, tx.sum)
  }

  // ----- Foreign messages that cannot be written -----

  predicate LeafEncodes(encodes: Accepts, l: Leaf) {
    encodes(Message(l.kind), l.body)
  }

  predicate UnionsEncode(encodes: Accepts, us: seq<Union>) {
    forall i | 0 <= i < |us| :: us[i].Some? ==> LeafEncodes(encodes, us[i].value)
  }

  predicate SumEncodes(encodes: Accepts, s: Option<Sum>) {
    match s
    case None => true
    case Some(Single(l)) => LeafEncodes(encodes, l)
    case Some(Batch(us)) => UnionsEncode(encodes, us)
  }

  predicate SignaturesEncode(encodes: Accepts, ss: seq<bytes>) {
    forall i | 0 <= i < |ss| :: encodes(StdSignature, ss[i])
  }

  /** All foreign parts of a transaction can be written. */
  predicate TxEncodes(encodes: Accepts, tx: Tx) {
    && (tx.fees.Some? ==> encodes(FeeInfo, tx.fees.value))
    && SignaturesEncode(encodes, tx.signatures)
    && SumEncodes(encodes, tx.sum)
  }

  /** What keeps a transaction from being written: its fees, a signature, or a message in the one-of. */
  lemma CannotEncode(encodes: Accepts, tx: Tx)
    ensures !TxEncodes(encodes, tx) <==>
            || (tx.fees.Some? && !encodes(FeeInfo, tx.fees.value))
            || (exists i :: 0 <= i < |tx.signatures| && !encodes(StdSignature, tx.signatures[i]))
            || (tx.sum.Some? && tx.sum.value.Single? &&
                !encodes(Message(tx.sum.value.leaf.kind), tx.sum.value.leaf.body))
            || (tx.sum.Some? && tx.sum.value.Batch? && exists i ::
                  0 <= i < |tx.sum.value.messages| && tx.sum.value.messages[i].Some? &&
                  !encodes(Message(tx.sum.value.messages[i].value.kind), tx.sum.value.messages[i].value.body))
  {
  }

  // ----- What was encoded is decoded -----

  lemma UnionDecodes(accepts: Accepts, kinds: set<Kind>, u: Union)
    requires u.Some? ==> LeafOk(accepts, kinds, u.value)
    requires |EncAll(UnionRecs(u))| < TWO_63
    ensures Decode(UnionStep(accepts, kinds), None, EncAll(UnionRecs(u))) == Some(u)
  {
    if u.Some? {
      KindOfNum(u.value.kind);
    }
    DecodeOfRecs(UnionStep(accepts, kinds), None, UnionRecs(u));
  }

  lemma UnionAppended(accepts: Accepts, kinds: set<Kind>, m: seq<Union>, u: Union)
    requires u.Some? ==> LeafOk(accepts, kinds, u.value)
    requires |EncAll(UnionRecs(u))| < TWO_63
    ensures BatchStep(accepts, kinds)(m, Field(1, 2, EncAll(UnionRecs(u)))) == Some(m + [u])
  {
    UnionDecodes(accepts, kinds, u);
  }

  lemma BatchTurn(accepts: Accepts, kinds: set<Kind>, m: seq<Union>, us: seq<Union>, i: nat)
    requires i < |us| && (us[i].Some? ==> LeafOk(accepts, kinds, us[i].value))
    requires |EncAll(UnionRecs(us[i]))| < TWO_63
    ensures BatchStep(accepts, kinds)(m + us[..i], Field(1, 2, EncAll(UnionRecs(us[i])))) == Some(m + us[..i + 1])
  {
    UnionAppended(accepts, kinds, m + us[..i], us[i]);
    assert m + us[..i] + [us[i]] == m + us[..i + 1];
  }

  lemma BatchFolds(accepts: Accepts, kinds: set<Kind>, m: seq<Union>, us: seq<Union>)
    requires UnionsOk(accepts, kinds, us)
    requires forall e | e in EncUnions(us) :: |e| < TWO_63
    ensures Fold(BatchStep(accepts, kinds), m, Repeated(1, EncUnions(us))) == Some(m + us)
  {
    var step, es := BatchStep(accepts, kinds), EncUnions(us);
    var ms := seq(|us| + 1, i requires 0 <= i <= |us| => m + us[..i]);
    forall i | 0 <= i < |us| ensures step(ms[i], Field(1, 2, es[i])) == Some(ms[i + 1]) {
      assert us[i] in us && es[i] in es;
      BatchTurn(accepts, kinds, m, us, i);
    }
    FoldRepeated(step, 1, es, ms);
    assert m + us[..0] == m && us[..|us|] == us;
  }

  /** Decoding a batch's bytes appends its messages, unset unions included. */
  lemma BatchDecodes(accepts: Accepts, kinds: set<Kind>, m: seq<Union>, us: seq<Union>)
    requires UnionsOk(accepts, kinds, us) && |EncAll(BatchRecs(us))| < TWO_63
    ensures Decode(BatchStep(accepts, kinds), m, EncAll(BatchRecs(us))) == Some(m + us)
  {
    var es := EncUnions(us);
    RepeatedBodiesFit([], 1, es);
    assert [] + Repeated(1, es) == Repeated(1, es);
    BatchFolds(accepts, kinds, m, us);
    RepeatedWritable(1, es);
    DecodeOfRecs(BatchStep(accepts, kinds), m, Repeated(1, es));
  }

  /** A set one-of replaces, an unset one leaves what is there. */
  function MergeSum(a: Option<Sum>, b: Option<Sum>): Option<Sum> {
    if b.None? then a else b
  }

  lemma SumSet(accepts: Accepts, schema: Schema, m: Option<Sum>, s: Sum)
    requires SumOk(accepts, schema, Some(s))
    requires |SumRec(s).body| < TWO_63
    ensures SumField(accepts, schema, m, Field(SumRec(s).num, 2, SumRec(s).body)) == Some(Some(s))
    ensures FieldNum(SumRec(s).num) && SumRec(s).num > 50
  {
    match s {
      case Single(l) => KindOfNum(l.kind);
      case Batch(us) =>
        BatchDecodes(accepts, schema.batch, [], us);
        assert [] + us == us;
    }
  }

  lemma OptionDecodes(accepts: Accepts, m: Option<Sum>, s: Option<Sum>)
    requires SumOk(accepts, OPTION_SCHEMA, s) && |EncAll(SumRecs(s))| < TWO_63
    ensures Decode(OptionStep(accepts), m, EncAll(SumRecs(s))) == Some(MergeSum(m, s))
  {
    if s.Some? {
      assert EncAll(SumRecs(s)) == EncRec(SumRec(s.value)) + EncAll([]);
      SumSet(accepts, OPTION_SCHEMA, m, s.value);
    }
    DecodeOfRecs(OptionStep(accepts), m, SumRecs(s));
  }

  // ----- Tx -----

  /** Fees are merged, repeated fields appended, the one-of replaced when set. */
  function MergeTx(a: Tx, b: Tx): Tx {
    Tx(if b.fees.None? then a.fees else Some((if a.fees.None? then [] else a.fees.value) + b.fees.value),
       a.signatures + b.signatures, a.multisig + b.multisig, MergeSum(a.sum, b.sum))
  }

  lemma FoldTxSignatures(accepts: Accepts, m: Tx, ss: seq<bytes>)
    requires forall s | s in ss :: accepts(StdSignature, s)
    ensures Fold(TxStep(accepts), m, Repeated(2, ss)) == Some(m.(signatures := m.signatures + ss))
  {
    var step := TxStep(accepts);
    var ms := seq(|ss| + 1, i requires 0 <= i <= |ss| => m.(signatures := m.signatures + ss[..i]));
    forall i | 0 <= i < |ss| ensures step(ms[i], Field(2, 2, ss[i])) == Some(ms[i + 1]) {
      assert ss[i] in ss;
      assert m.signatures + ss[..i] + [ss[i]] == m.signatures + ss[..i + 1];
    }
    FoldRepeated(step, 2, ss, ms);
    assert m.signatures + ss[..0] == m.signatures && ss[..|ss|] == ss;
  }

  lemma FoldMultisig(accepts: Accepts, m: Tx, ids: seq<bytes>)
    ensures Fold(TxStep(accepts), m, Repeated(4, ids)) == Some(m.(multisig := m.multisig + ids))
  {
    var step := TxStep(accepts);
    var ms := seq(|ids| + 1, i requires 0 <= i <= |ids| => m.(multisig := m.multisig + ids[..i]));
    forall i | 0 <= i < |ids| ensures step(ms[i], Field(4, 2, ids[i])) == Some(ms[i + 1]) {
      assert m.multisig + ids[..i] + [ids[i]] == m.multisig + ids[..i + 1];
    }
    FoldRepeated(step, 4, ids, ms);
    assert m.multisig + ids[..0] == m.multisig && ids[..|ids|] == ids;
  }

  lemma TxFolds(accepts: Accepts, a: Tx, b: Tx)
    requires TxOk(accepts, b)
    requires b.sum.Some? ==> |SumRec(b.sum.value).body| < TWO_63
    ensures Fold(TxStep(accepts), a, TxRecs(b)) == Some(MergeTx(a, b))
  {
    var step := TxStep(accepts);
    var m4 := MergeTx(a, b);
    var m1 := a.(fees := m4.fees);
    var m2 := m1.(signatures := m4.signatures);
    var m3 := m2.(multisig := m4.multisig);
    var r1 := FeeRecs(b.fees);
    FoldTxSignatures(accepts, m1, b.signatures);
    FoldThen(step, a, r1, Repeated(2, b.signatures), m1, m2);
    FoldMultisig(accepts, m2, b.multisig);
    FoldThen(step, a, r1 + Repeated(2, b.signatures), Repeated(4, b.multisig), m2, m3);
    if b.sum.Some? {
      SumSet(accepts, TX_SCHEMA, m3.sum, b.sum.value);
    }
    FoldThen(step, a, r1 + Repeated(2, b.signatures) + Repeated(4, b.multisig), SumRecs(b.sum), m3, m4);
  }

  lemma TxWritable(b: Tx)
    ensures Writable(TxRecs(b))
    ensures b.sum.Some? ==> |SumRec(b.sum.value).body| < |EncAll(TxRecs(b))|
  {
    RepeatedWritable(2, b.signatures);
    RepeatedWritable(4, b.multisig);
    if b.sum.Some? {
      var r := SumRec(b.sum.value);
      if b.sum.value.Single? { KindOfNum(b.sum.value.leaf.kind); }
      var before := FeeRecs(b.fees) + Repeated(2, b.signatures) + Repeated(4, b.multisig);
      EncAllConcat(before, [r]);
      assert EncAll([r]) == EncRec(r) + EncAll([]);
    }
  }

  /** Decoding a transaction's bytes into any transaction gives the merge of the two. */
  lemma TxDecodes(accepts: Accepts, a: Tx, b: Tx)
    requires TxOk(accepts, b) && |EncAll(TxRecs(b))| < TWO_63
    ensures Decode(TxStep(accepts), a, EncAll(TxRecs(b))) == Some(MergeTx(a, b))
  {
    TxWritable(b);
    TxFolds(accepts, a, b);
    DecodeOfRecs(TxStep(accepts), a, TxRecs(b));
  }

  lemma MergeIntoNothing(b: Tx)
    ensures MergeTx(NO_TX, b) == b
  {
    assert [] + b.signatures == b.signatures && [] + b.multisig == b.multisig;
    assert b.fees.Some? ==> [] + b.fees.value == b.fees.value;
  }

  lemma TxRoundTrip(accepts: Accepts, tx: Tx)
    requires TxOk(accepts, tx) && |EncAll(TxRecs(tx))| < TWO_63
    ensures Decode(TxStep(accepts), NO_TX, EncAll(TxRecs(tx))) == Some(tx)
  {
    TxDecodes(accepts, NO_TX, tx);
    MergeIntoNothing(tx);
  }

  /** The bytes of a transaction determine it, whatever its foreign parts are. */
  lemma TxInjective(a: Tx, b: Tx)
    requires EncAll(TxRecs(a)) == EncAll(TxRecs(b)) && |EncAll(TxRecs(a))| < TWO_63
    requires SumOk(AcceptAll(), TX_SCHEMA, a.sum) && SumOk(AcceptAll(), TX_SCHEMA, b.sum)
    ensures a == b
  {
    TxRoundTrip(AcceptAll(), a);
    TxRoundTrip(AcceptAll(), b);
  }

  function AcceptAll(): Accepts {
    (f, b) => true
  }

  /** A field number no Tx field uses is ignored in any position. */
  lemma TxIgnoresUnknown(accepts: Accepts, m: Tx, x: bytes, num: nat, p: Payload, y: bytes)
    requires Decode(TxStep(accepts), m, x).Some?
    requires FieldNum(num) && WellFormed(p) && num !in {1, 2, 4, BATCH_NUM}
    requires KindOf(num).Some? ==> KindOf(num).value !in TX_KINDS
    ensures Decode(TxStep(accepts), m, x + EncField(num, p) + y) == Decode(TxStep(accepts), m, x + y)
  {
    UnknownFieldIsWhole(num, p);
    UnknownFieldTransparent(TxStep(accepts), m, x, EncField(num, p), y);
  }

  /** The same for proposal options. */
  lemma OptionIgnoresUnknown(accepts: Accepts, m: Option<Sum>, x: bytes, num: nat, p: Payload, y: bytes)
    requires Decode(OptionStep(accepts), m, x).Some?
    requires FieldNum(num) && WellFormed(p) && num != BATCH_NUM
    requires KindOf(num).Some? ==> KindOf(num).value !in OPTION_KINDS
    ensures Decode(OptionStep(accepts), m, x + EncField(num, p) + y) == Decode(OptionStep(accepts), m, x + y)
  {
    UnknownFieldIsWhole(num, p);
    UnknownFieldTransparent(OptionStep(accepts), m, x, EncField(num, p), y);
  }

  /** The same for both batch messages, which have one field. */
  lemma BatchIgnoresUnknown(accepts: Accepts, kinds: set<Kind>, m: seq<Union>, x: bytes, num: nat, p: Payload, y: bytes)
    requires Decode(BatchStep(accepts, kinds), m, x).Some?
    requires FieldNum(num) && WellFormed(p) && num != 1
    ensures Decode(BatchStep(accepts, kinds), m, x + EncField(num, p) + y)
         == Decode(BatchStep(accepts, kinds), m, x + y)
  {
    UnknownFieldIsWhole(num, p);
    UnknownFieldTransparent(BatchStep(accepts, kinds), m, x, EncField(num, p), y);
  }

  /** The same for the unions in them. */
  lemma UnionIgnoresUnknown(accepts: Accepts, kinds: set<Kind>, m: Union, x: bytes, num: nat, p: Payload, y: bytes)
    requires Decode(UnionStep(accepts, kinds), m, x).Some?
    requires FieldNum(num) && WellFormed(p)
    requires KindOf(num).Some? ==> KindOf(num).value !in kinds
    ensures Decode(UnionStep(accepts, kinds), m, x + EncField(num, p) + y)
         == Decode(UnionStep(accepts, kinds), m, x + y)
  {
    UnknownFieldIsWhole(num, p);
    UnknownFieldTransparent(UnionStep(accepts, kinds), m, x, EncField(num, p), y);
  }

  // ----- The bytes on the wire -----

  /** The two tag bytes of every message type; Tx, ProposalOptions and both batches agree on them. */
  lemma MessageTag(k: Kind)
    ensures EncTag(Num(k)) ==
            match k
            case CashSend => [0x9a, 0x03] case EscrowCreate => [0xa2, 0x03] case EscrowRelease => [0xaa, 0x03]
            case EscrowReturn => [0xb2, 0x03] case EscrowUpdateParties => [0xba, 0x03]
            case MultisigCreate => [0xc2, 0x03] case MultisigUpdate => [0xca, 0x03]
            case ValidatorsApplyDiff => [0xd2, 0x03] case CurrencyCreate => [0xda, 0x03]
            case DistributionCreate => [0x92, 0x04] case Distribute => [0x9a, 0x04]
            case DistributionReset => [0xa2, 0x04] case UpgradeSchema => [0xaa, 0x04]
            case AswapCreate => [0xb2, 0x04] case AswapRelease => [0xba, 0x04] case AswapReturn => [0xc2, 0x04]
            case GovCreateProposal => [0xca, 0x04] case GovDeleteProposal => [0xd2, 0x04] case GovVote => [0xda, 0x04]
            case GovUpdateElectorate => [0xea, 0x04] case GovUpdateElectionRule => [0xf2, 0x04]
            case GovCreateTextResolution => [0xfa, 0x04]
            case CreateArtifact => [0xa2, 0x06] case DeleteArtifact => [0xaa, 0x06]
  {
    var n := Num(k);
    TwoByteTag(n, (n * 8 + 2) % 128 + 128, (n * 8 + 2) / 128);
  }

  lemma BatchTag()
    ensures EncTag(BATCH_NUM) == [0xe2, 0x03]
  {
    TwoByteTag(BATCH_NUM, 0xe2, 0x03);
  }

  lemma TwoByteTag(n: nat, a: byte, b: byte)
    requires n * 8 + 2 == (a - 128) + 128 * b && a >= 128 && 0 < b < 128
    ensures EncTag(n) == [a, b]
  {
    assert EncVarint((n * 8 + 2) / 128) == [b];
  }

  /** Which messages each one-of takes, by field number. */
  lemma KindsByNumber(k: Kind)
    ensures k in BATCH_KINDS <==> Num(k) in {51, 52, 53, 54, 55, 56, 57, 58, 59, 66, 67, 68}
    ensures k in TX_KINDS <==>
            Num(k) in {51, 52, 53, 54, 55, 56, 57, 58, 59, 66, 67, 68, 69, 70, 71, 72, 73, 74, 75, 77, 78, 100, 101}
    ensures k in PROPOSAL_BATCH_KINDS <==> Num(k) in {51, 53, 55, 57, 58, 66, 67, 68, 77, 78, 79}
    ensures k in OPTION_KINDS <==> Num(k) in {51, 53, 55, 57, 58, 59, 66, 67, 68, 69, 77, 78, 79}
  {
  }

  /** A message behind the tag of its type. */
  function MessageOnWire(l: Leaf): bytes {
    Tagged(EncTag(Num(l.kind)), l.body)
  }

  function UnionOnWire(u: Union): bytes {
    if u.None? then [] else MessageOnWire(u.value)
  }

  function SumOnWire(s: Option<Sum>): bytes {
    match s
    case None => []
    case Some(Single(l)) => MessageOnWire(l)
    case Some(Batch(us)) =>
      Tagged([0xe2, 0x03], TaggedEach([0x0a], seq(|us|, i requires 0 <= i < |us| => UnionOnWire(us[i]))))
  }

  lemma UnionLayout(u: Union)
    ensures EncAll(UnionRecs(u)) == UnionOnWire(u)
  {
    if u.Some? {
      assert EncAll(UnionRecs(u)) == EncRec(LeafRec(u.value)) + EncAll([]);
    }
  }

  lemma BatchLayout(us: seq<Union>)
    ensures EncAll(BatchRecs(us)) == TaggedEach([0x0a], seq(|us|, i requires 0 <= i < |us| => UnionOnWire(us[i])))
  {
    var es := seq(|us|, i requires 0 <= i < |us| => UnionOnWire(us[i]));
    assert EncUnions(us) == es by {
      forall i | 0 <= i < |us| ensures EncUnions(us)[i] == es[i] { UnionLayout(us[i]); }
    }
    SmallTags();
    RepeatedIsTagged(1, es);
  }

  /** The bytes of a one-of, which are also the bytes of proposal options. */
  lemma SumLayout(s: Option<Sum>)
    ensures EncAll(SumRecs(s)) == SumOnWire(s)
  {
    if s.Some? {
      assert EncAll(SumRecs(s)) == EncRec(SumRec(s.value)) + EncAll([]);
      if s.value.Batch? {
        BatchLayout(s.value.messages);
        BatchTag();
      }
    }
  }

  /** The written transaction, byte by byte. */
  lemma TxLayout(tx: Tx)
    ensures EncAll(TxRecs(tx)) ==
            (if tx.fees.None? then [] else Tagged([0x0a], tx.fees.value))
            + TaggedEach([0x12], tx.signatures) + TaggedEach([0x22], tx.multisig) + SumOnWire(tx.sum)
  {
    SmallTags();
    var r1 := FeeRecs(tx.fees);
    if tx.fees.Some? {
      assert EncAll(r1) == EncRec(Rec(1, tx.fees.value)) + EncAll([]);
    }
    RepeatedIsTagged(2, tx.signatures);
    RepeatedIsTagged(4, tx.multisig);
    SumLayout(tx.sum);
    var r2 := r1 + Repeated(2, tx.signatures);
    EncAllConcat(r1, Repeated(2, tx.signatures));
    EncAllConcat(r2, Repeated(4, tx.multisig));
    EncAllConcat(r2 + Repeated(4, tx.multisig), SumRecs(tx.sum));
  }

  /** A cash send with an empty encoding, on the wire and back. */
  lemma CashSendOnWire(accepts: Accepts)
    requires accepts(Message(CashSend), [])
    ensures EncAll(TxRecs(Tx(None, [], [], Some(Single(Leaf(CashSend, [])))))) == [0x9a, 0x03, 0x00]
    ensures Decode(TxStep(accepts), NO_TX, [0x9a, 0x03, 0x00]) == Some(Tx(None, [], [], Some(Single(Leaf(CashSend, [])))))
  {
    var tx := Tx(None, [], [], Some(Single(Leaf(CashSend, []))));
    TxLayout(tx);
    MessageTag(CashSend);
    assert EncVarint(0) == [0x00];
    assert Tagged([0x9a, 0x03], []) == [0x9a, 0x03, 0x00];
    TxRoundTrip(accepts, tx);
  }

  // ----- What every field does when it is read -----

  /** Fees are merged, signatures and multisig ids appended; a refused fee or signature ends the decoding. */
  lemma TxReads(accepts: Accepts, m: Tx, tag: byte, b: bytes, rest: bytes)
    requires |b| < TWO_63 && tag in {0x0a, 0x12, 0x22}
    ensures Decode(TxStep(accepts), m, Tagged([tag], b) + rest) ==
            if (tag == 0x0a && !accepts(FeeInfo, b)) || (tag == 0x12 && !accepts(StdSignature, b)) then None
            else Decode(TxStep(accepts), match tag
                        case 0x0a => m.(fees := Some((if m.fees.None? then [] else m.fees.value) + b))
                        case 0x12 => m.(signatures := m.signatures + [b])
                        case _ => m.(multisig := m.multisig + [b]), rest)
  {
    TagByte(tag);
    DecodeRec(TxStep(accepts), m, Rec(tag / 8, b), rest);
  }

  /** A message replaces what the one-of held if its type belongs there and its own decoder takes it. */
  lemma TxReadsMessage(accepts: Accepts, m: Tx, l: Leaf, rest: bytes)
    requires |l.body| < TWO_63 && l.kind in TX_KINDS
    ensures Decode(TxStep(accepts), m, MessageOnWire(l) + rest) ==
            if accepts(Message(l.kind), l.body) then Decode(TxStep(accepts), m.(sum := Some(Single(l))), rest) else None
  {
    KindOfNum(l.kind);
    DecodeRec(TxStep(accepts), m, LeafRec(l), rest);
  }

  /** The same for proposal options. */
  lemma OptionReadsMessage(accepts: Accepts, m: Option<Sum>, l: Leaf, rest: bytes)
    requires |l.body| < TWO_63 && l.kind in OPTION_KINDS
    ensures Decode(OptionStep(accepts), m, MessageOnWire(l) + rest) ==
            if accepts(Message(l.kind), l.body) then Decode(OptionStep(accepts), Some(Single(l)), rest) else None
  {
    KindOfNum(l.kind);
    DecodeRec(OptionStep(accepts), m, LeafRec(l), rest);
  }

  /** The same for the unions of a batch. */
  lemma UnionReadsMessage(accepts: Accepts, kinds: set<Kind>, m: Union, l: Leaf, rest: bytes)
    requires |l.body| < TWO_63 && l.kind in kinds
    ensures Decode(UnionStep(accepts, kinds), m, MessageOnWire(l) + rest) ==
            if accepts(Message(l.kind), l.body) then Decode(UnionStep(accepts, kinds), Some(l), rest) else None
  {
    KindOfNum(l.kind);
    DecodeRec(UnionStep(accepts, kinds), m, LeafRec(l), rest);
  }

  /** A union whose bytes do not decode ends the decoding of its batch, and such a batch that of the whole. */
  lemma BatchReads(accepts: Accepts, kinds: set<Kind>, m: seq<Union>, b: bytes, rest: bytes)
    requires |b| < TWO_63
    ensures Decode(BatchStep(accepts, kinds), m, Tagged([0x0a], b) + rest) ==
            match Decode(UnionStep(accepts, kinds), None, b)
            case None => None
            case Some(u) => Decode(BatchStep(accepts, kinds), m + [u], rest)
  {
    SmallTags();
    DecodeRec(BatchStep(accepts, kinds), m, Rec(1, b), rest);
  }

  lemma TxReadsBatch(accepts: Accepts, m: Tx, b: bytes, rest: bytes)
    requires |b| < TWO_63
    ensures Decode(TxStep(accepts), m, Tagged([0xe2, 0x03], b) + rest) ==
            match Decode(BatchStep(accepts, BATCH_KINDS), [], b)
            case None => None
            case Some(us) => Decode(TxStep(accepts), m.(sum := Some(Batch(us))), rest)
  {
    BatchTag();
    DecodeRec(TxStep(accepts), m, Rec(BATCH_NUM, b), rest);
  }

  lemma OptionReadsBatch(accepts: Accepts, m: Option<Sum>, b: bytes, rest: bytes)
    requires |b| < TWO_63
    ensures Decode(OptionStep(accepts), m, Tagged([0xe2, 0x03], b) + rest) ==
            match Decode(BatchStep(accepts, PROPOSAL_BATCH_KINDS), [], b)
            case None => None
            case Some(us) => Decode(OptionStep(accepts), Some(Batch(us)), rest)
  {
    BatchTag();
    DecodeRec(OptionStep(accepts), m, Rec(BATCH_NUM, b), rest);
  }

  /** A number a message has, with any other wire type than 2, ends its decoding. */
  lemma OtherWireTypesFail(accepts: Accepts, m: Tx, o: Option<Sum>, kinds: set<Kind>, us: seq<Union>, u: Union,
                           num: nat, p: Payload, rest: bytes)
    requires FieldNum(num) && WellFormed(p) && WireTypeOf(p) != 2
    ensures num in {1, 2, 4, 60} || (KindOf(num).Some? && KindOf(num).value in TX_KINDS) ==>
              Decode(TxStep(accepts), m, EncField(num, p) + rest) == None
    ensures num == 60 || (KindOf(num).Some? && KindOf(num).value in OPTION_KINDS) ==>
              Decode(OptionStep(accepts), o, EncField(num, p) + rest) == None
    ensures num == 1 ==> Decode(BatchStep(accepts, kinds), us, EncField(num, p) + rest) == None
    ensures KindOf(num).Some? && KindOf(num).value in kinds ==>
              Decode(UnionStep(accepts, kinds), u, EncField(num, p) + rest) == None
  {
    FieldHasWireType(num, p, rest);
  }
}
