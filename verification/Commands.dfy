/**
 cmd/grafaincli/cmd_batch.go and the option building of cmd_gov.go: folding a stream of transactions
 into one batch, and turning a message into an encoded proposal option.
 */
module Commands {
  import opened Wire
  import opened AppCodec
  import opened AppRecords
  import opened Streams
  import opened BigEndian

  // ----- pkg/app/msg.go -----

  /** The messages of a batch, or `None` when some union is unset. */
  function Messages(us: seq<Union>): (r: Option<seq<Leaf>>)
    ensures r.Some? ==> |r.value| == |us|
    ensures r.Some? <==> forall u | u in us :: u.Some?
    ensures r.Some? ==> forall i | 0 <= i < |us| :: us[i] == Some(r.value[i])
  {
    if us == [] then Some([])
    else if us[|us| - 1].None? then None
    else match Messages(us[..|us| - 1])
         case None => None
         case Some(ls) => Some(ls + [us[|us| - 1].value])
  }

  function Unions(ls: seq<Leaf>): (us: seq<Union>)
    ensures |us| == |ls| && forall i | 0 <= i < |ls| :: us[i] == Some(ls[i])
  {
    seq(|ls|, i requires 0 <= i < |ls| => Some(ls[i]))
  }

  lemma MessagesOfUnions(ls: seq<Leaf>)
    ensures Messages(Unions(ls)) == Some(ls)
  {
    assert Messages(Unions(ls)).value == ls;
  }

  method MsgList(us: seq<Union>) returns (ok: bool, messages: array<Leaf>)
    ensures fresh(messages)
    ensures ok <==> Messages(us).Some?
    ensures ok ==> messages[..] == Messages(us).value
  {
    messages := new Leaf[|us|](_ => Leaf(CashSend, []));
    for i := 0 to |us|
      invariant forall j | 0 <= j < i :: us[j] == Some(messages[j])
    {
      if us[i].None? {
        return false, messages;
      }
      messages[i] := us[i].value;
    }
    assert forall u | u in us :: u.Some?;
    return true, messages;
  }

  // ----- cmdAsBatch -----

  /** The message of a transaction, if cmdAsBatch has a case for its type. */
  function Batchable(tx: Tx): Option<Leaf> {
    match tx.sum
    case Some(Single(l)) => if l.kind in BATCH_KINDS then Some(l) else None
    case _ => None
  }

  /** `ls`, followed by `r` if that is there. */
  function Prepend(ls: seq<Leaf>, r: Option<seq<Leaf>>): Option<seq<Leaf>> {
    match r
    case None => None
    case Some(more) => Some(ls + more)
  }

  lemma PrependTwice(a: seq<Leaf>, b: seq<Leaf>, r: Option<seq<Leaf>>)
    ensures Prepend(a, Prepend(b, r)) == Prepend(a + b, r)
    ensures Prepend([], r) == r
  {
    if r.Some? {
      assert a + (b + r.value) == a + b + r.value;
      assert [] + r.value == r.value;
    }
  }

  /** The messages collected from a stream up to its end. */
  function Collect(accepts: Accepts, s: bytes): Option<seq<Leaf>>
    decreases |s|
  {
    match ReadFrame(accepts, s)
    case Eof => Some([])
    case Failed => None
    case Got(tx, rest) =>
      if Batchable(tx).None? then None else Prepend([Batchable(tx).value], Collect(accepts, rest))
  }

  lemma CollectGot(accepts: Accepts, s: bytes, tx: Tx, rest: bytes)
    requires ReadFrame(accepts, s) == Got(tx, rest)
    ensures Collect(accepts, s) ==
            if Batchable(tx).None? then None else Prepend([Batchable(tx).value], Collect(accepts, rest))
  {
  }

  function BatchTx(ls: seq<Leaf>): Tx {
    Tx(None, [], [], Some(Batch(Unions(ls))))
  }

  /** What one turn of the loop adds to the messages `ls` collected so far. */
  lemma CollectTurn(accepts: Accepts, s: bytes, ls: seq<Leaf>)
    ensures ReadFrame(accepts, s) == Eof ==> Prepend(ls, Collect(accepts, s)) == Some(ls)
    ensures ReadFrame(accepts, s) == Failed ==> Collect(accepts, s) == None
    ensures ReadFrame(accepts, s).Got? ==>
              var tx, rest := ReadFrame(accepts, s).tx, ReadFrame(accepts, s).rest;
              Prepend(ls, Collect(accepts, s)) ==
              if Batchable(tx).None? then None
              else Prepend(ls + [Batchable(tx).value], Collect(accepts, rest))
  {
    var r := ReadFrame(accepts, s);
    if r.Got? {
      CollectGot(accepts, s, r.tx, r.rest);
      if Batchable(r.tx).Some? {
        PrependTwice(ls, [Batchable(r.tx).value], Collect(accepts, r.rest));
      }
    } else if r == Eof {
      assert Collect(accepts, s) == Some([]) && ls + [] == ls;
    }
  }

  /** The loop of cmdAsBatch. */
  method CollectBatch(input: Reader, accepts: Accepts) returns (ok: bool, batch: seq<Union>)
    requires |input.rest| < TWO_63
    modifies input
    ensures ok <==> Collect(accepts, old(input.rest)).Some?
    ensures ok ==> batch == Unions(Collect(accepts, old(input.rest)).value)
  {
    ghost var all := Collect(accepts, input.rest);
    ghost var ls: seq<Leaf> := [];
    batch := [];
    PrependTwice([], [], all);
    while true
      invariant |input.rest| < TWO_63
      invariant batch == Unions(ls)
      invariant all == Prepend(ls, Collect(accepts, input.rest))
      decreases |input.rest|
    {
      CollectTurn(accepts, input.rest, ls);
      var status, tx := ReadTx(input, accepts);
      if status == EndOfFile {
        return true, batch;
      }
      if status == Error {
        return false, batch;
      }
      match tx.sum {
        case Some(Single(l)) =>
          if l.kind !in BATCH_KINDS {
            return false, batch;
          }
          batch := batch + [Some(l)];
          ls := ls + [l];
        case _ =>
          return false, batch;
      }
    }
  }

  /** On success one frame is written; a failing output may have taken a part of it. */
  method CmdAsBatch(input: Reader, output: Writer, accepts: Accepts, encodes: Accepts) returns (ok: bool)
    requires |input.rest| < TWO_63
    requires Collect(accepts, input.rest).Some? ==>
               |EncAll(TxRecs(BatchTx(Collect(accepts, input.rest).value)))| < TWO_63
    modifies input, output
    ensures ok <==> Collect(accepts, old(input.rest)).Some? &&
                    var tx := BatchTx(Collect(accepts, old(input.rest)).value);
                    TxEncodes(encodes, tx) && |Frame(tx)| <= old(output.room)
    ensures ok ==> output.out == old(output.out) + Frame(BatchTx(Collect(accepts, old(input.rest)).value))
    ensures Collect(accepts, old(input.rest)).None? ==> output.out == old(output.out)
    ensures Collect(accepts, old(input.rest)).Some? ==>
              var tx := BatchTx(Collect(accepts, old(input.rest)).value);
              output.out == old(output.out) +
                if TxEncodes(encodes, tx) then Frame(tx)[..Fitting(|Frame(tx)|, old(output.room))] else []
  {
    var batch;
    ok, batch := CollectBatch(input, accepts);
    if !ok {
      return;
    }
    var batchTx := new TxRecord(Tx(None, [], [], Some(Batch(batch))));
    var n;
    ok, n := WriteTx(output, batchTx, encodes);
  }

  function Frames(txs: seq<Tx>): bytes {
    if txs == [] then [] else Frame(txs[0]) + Frames(txs[1..])
  }

  /** Transactions as the CLI writes them, short enough for the 32-bit size header. */
  ghost predicate Streamable(accepts: Accepts, txs: seq<Tx>) {
    forall tx | tx in txs :: TxOk(accepts, tx) && |EncAll(TxRecs(tx))| < TWO_32
  }

  predicate AllBatchable(txs: seq<Tx>) {
    forall tx | tx in txs :: Batchable(tx).Some?
  }

  function Bodies(txs: seq<Tx>): seq<Leaf>
    requires AllBatchable(txs)
  {
    seq(|txs|, i requires 0 <= i < |txs| => assert txs[i] in txs; Batchable(txs[i]).value)
  }

  /** A stream of frames from its first one. */
  lemma FirstFrame(txs: seq<Tx>, tail: bytes)
    requires txs != []
    ensures Frames(txs) + tail == Frame(txs[0]) + (Frames(txs[1..]) + tail)
  {
  }

  lemma FirstBody(txs: seq<Tx>)
    requires txs != []
    ensures AllBatchable(txs) <==> Batchable(txs[0]).Some? && AllBatchable(txs[1..])
    ensures AllBatchable(txs) ==> Bodies(txs) == [Batchable(txs[0]).value] + Bodies(txs[1..])
  {
    assert txs == [txs[0]] + txs[1..];
  }

  /** A stream of frames gives exactly its messages in order, or nothing if one is not batchable. */
  lemma {:induction false} CollectFrames(accepts: Accepts, txs: seq<Tx>, tail: bytes)
    requires Streamable(accepts, txs)
    ensures Collect(accepts, Frames(txs) + tail) ==
            if AllBatchable(txs) then Prepend(Bodies(txs), Collect(accepts, tail)) else None
    decreases |txs|
  {
    if txs == [] {
      assert Frames(txs) + tail == tail && Bodies(txs) == [];
      PrependTwice([], [], Collect(accepts, tail));
    } else {
      var tx, more := txs[0], Frames(txs[1..]) + tail;
      assert tx in txs;
      FirstFrame(txs, tail);
      FirstBody(txs);
      FrameIsRead(accepts, tx, more);
      CollectGot(accepts, Frame(tx) + more, tx, more);
      CollectFrames(accepts, txs[1..], tail);
      if AllBatchable(txs) {
        PrependTwice([Batchable(tx).value], Bodies(txs[1..]), Collect(accepts, tail));
      }
    }
  }

  lemma BatchTxOk(accepts: Accepts, txs: seq<Tx>)
    requires Streamable(accepts, txs) && AllBatchable(txs)
    ensures TxOk(accepts, BatchTx(Bodies(txs)))
  {
    var us := Unions(Bodies(txs));
    forall u | u in us ensures u.Some? ==> LeafOk(accepts, BATCH_KINDS, u.value) {
      var i :| 0 <= i < |us| && us[i] == u;
      assert txs[i] in txs && TxOk(accepts, txs[i]);
      assert txs[i].sum == Some(Single(u.value));
    }
  }

  /** Which transactions have a case, what is collected of each, and the batch that is made of it. */
  lemma CollectedMessages(txs: seq<Tx>)
    ensures AllBatchable(txs) <==>
            forall tx | tx in txs :: tx.sum.Some? && tx.sum.value.Single? && tx.sum.value.leaf.kind in BATCH_KINDS
    ensures AllBatchable(txs) ==>
              |Bodies(txs)| == |txs| && forall i | 0 <= i < |txs| :: txs[i].sum == Some(Single(Bodies(txs)[i]))
    ensures AllBatchable(txs) ==>
              var tx := BatchTx(Bodies(txs));
              tx.fees == None && tx.signatures == [] && tx.multisig == [] &&
              tx.sum.Some? && tx.sum.value.Batch? && |tx.sum.value.messages| == |txs| &&
              forall i | 0 <= i < |txs| ::
                tx.sum.value.messages[i].Some? && txs[i].sum == Some(Single(tx.sum.value.messages[i].value))
  {
    forall tx | tx in txs
      ensures Batchable(tx).Some? <==>
              tx.sum.Some? && tx.sum.value.Single? && tx.sum.value.leaf.kind in BATCH_KINDS
    {
    }
    if AllBatchable(txs) {
      forall i | 0 <= i < |txs| ensures txs[i].sum == Some(Single(Bodies(txs)[i])) {
        assert txs[i] in txs;
      }
    }
  }

  /** A complete frame whose body is no transaction ends the command with an error, whatever follows. */
  lemma UndecodableFrameFails(accepts: Accepts, txs: seq<Tx>, b: bytes, rest: bytes)
    requires Streamable(accepts, txs)
    requires |b| < TWO_32 && Decode(TxStep(accepts), NO_TX, b) == None
    ensures Collect(accepts, Frames(txs) + (Header(|b|) + b + rest)) == None
  {
    CollectFrames(accepts, txs, Header(|b|) + b + rest);
    AnyFrameIsRead(accepts, b, rest);
    assert Collect(accepts, Header(|b|) + b + rest) == None;
  }

  /** The whole command: read, collect, write one frame whose messages are those of the input in order. */
  lemma StreamToBatch(accepts: Accepts, txs: seq<Tx>)
    requires Streamable(accepts, txs)
    ensures Collect(accepts, Frames(txs)).Some? <==> AllBatchable(txs)
    ensures AllBatchable(txs) ==>
              var ls := Bodies(txs);
              Collect(accepts, Frames(txs)) == Some(ls) &&
              (|EncAll(TxRecs(BatchTx(ls)))| < TWO_32 ==>
                 ReadFrame(accepts, Frame(BatchTx(ls))) == Got(BatchTx(ls), []) &&
                 Messages(BatchTx(ls).sum.value.messages) == Some(ls))
  {
    CollectFrames(accepts, txs, []);
    assert Frames(txs) + [] == Frames(txs);
    EndOfStream(accepts);
    if AllBatchable(txs) {
      var ls := Bodies(txs);
      assert ls + [] == ls;
      if |EncAll(TxRecs(BatchTx(ls)))| < TWO_32 {
        BatchTxOk(accepts, txs);
        FrameIsRead(accepts, BatchTx(ls), []);
        assert Frame(BatchTx(ls)) + [] == Frame(BatchTx(ls));
        MessagesOfUnions(ls);
      }
    }
  }

  lemma EndOfStream(accepts: Accepts)
    ensures Collect(accepts, []) == Some([])
  {
  }

  /** At most a header is left: the end of the file if it announces a body, an empty transaction if not. */
  lemma ReadOfHeader(accepts: Accepts, t: bytes)
    requires 0 < |t| <= HEADER_SIZE
    ensures ReadFrame(accepts, t) == if FrameSize(t) > 0 then Eof else Got(NO_TX, [])
    ensures Collect(accepts, t) == if FrameSize(t) > 0 then Some([]) else None
  {
    var body := t[HeaderBytes(t)..];
    assert body == [] && body[..0] == [];
    assert Decode(TxStep(accepts), NO_TX, []) == Some(NO_TX);
    if FrameSize(t) == 0 {
      CollectGot(accepts, t, NO_TX, []);
    }
  }

  /**
   A stream that ends inside or right behind a header: if the bytes of that header are not all zero it
   ends like a complete stream, and the frame is dropped without an error; otherwise an empty
   transaction is read, which has no message, and that is an error.
   */
  lemma CutHeaderIsDropped(accepts: Accepts, txs: seq<Tx>, t: bytes)
    requires Streamable(accepts, txs)
    requires 0 < |t| <= HEADER_SIZE
    ensures FrameSize(t) == 0 <==> forall i | 0 <= i < |t| :: t[i] == 0
    ensures Collect(accepts, Frames(txs) + t) == if FrameSize(t) > 0 then Collect(accepts, Frames(txs)) else None
  {
    ShortHeaderSize(t);
    CollectFrames(accepts, txs, t);
    CollectFrames(accepts, txs, []);
    assert Frames(txs) + [] == Frames(txs);
    EndOfStream(accepts);
    ReadOfHeader(accepts, t);
  }

  /** A stream cut inside a body is an error. */
  lemma CutBodyFails(accepts: Accepts, txs: seq<Tx>, t: bytes)
    requires Streamable(accepts, txs)
    requires HEADER_SIZE < |t| < HEADER_SIZE + FrameSize(t)
    ensures Collect(accepts, Frames(txs) + t) == None
  {
    CollectFrames(accepts, txs, t);
    assert ReadFrame(accepts, t) == Failed;
    assert Collect(accepts, t) == None;
  }

  /**
   A stream whose last frame is cut after `c` bytes. The cut is noticed exactly when part of the body is
   there or the length of the body fits the missing header bytes; otherwise the stream is collected as
   if that frame had never been sent.
   */
  lemma CutFrame(accepts: Accepts, txs: seq<Tx>, tx: Tx, c: nat)
    requires Streamable(accepts, txs)
    requires |EncAll(TxRecs(tx))| < TWO_32 && 0 < c < |Frame(tx)|
    ensures Collect(accepts, Frames(txs)) == if AllBatchable(txs) then Some(Bodies(txs)) else None
    ensures Collect(accepts, Frames(txs) + Frame(tx)[..c]) ==
            if c > HEADER_SIZE || |EncAll(TxRecs(tx))| < Pow256(HEADER_SIZE - c) then None
            else Collect(accepts, Frames(txs))
  {
    var b := EncAll(TxRecs(tx));
    StreamToBatch(accepts, txs);
    CutParts(Header(|b|), b, c);
    if c > HEADER_SIZE {
      HeaderIsRead(|b|, b[..c - HEADER_SIZE]);
      CutBodyFails(accepts, txs, Frame(tx)[..c]);
    } else {
      CutHeaderSize(|b|, c);
      CutHeaderIsDropped(accepts, txs, Frame(tx)[..c]);
    }
  }

  lemma CutParts(h: bytes, b: bytes, c: nat)
    requires c <= |h + b|
    ensures (h + b)[..c] == if c > |h| then h + b[..c - |h|] else h[..c]
  {
  }

  /** A header that announces five bytes is dropped; the first byte of the same header is an error. */
  lemma DroppedHeader(accepts: Accepts)
    ensures Collect(accepts, [0, 0, 0, 5]) == Some([])
    ensures Collect(accepts, [0]) == None
  {
    var header: bytes := [0, 0, 0, 5];
    ReadOfHeader(accepts, header);
    ShortHeaderSize(header);
    assert header[3] != 0;
    ReadOfHeader(accepts, [0]);
    ShortHeaderSize([0]);
  }

  // ----- toOption -----

  /** The messages of a batch the inner switch has a case for, in their order. */
  function Proposable(ls: seq<Leaf>): seq<Leaf> {
    if ls == [] then []
    else
      var l := ls[|ls| - 1];
      Proposable(ls[..|ls| - 1]) + if l.kind in PROPOSAL_BATCH_KINDS then [l] else []
  }

  /** The option built for a message; `None` for an unsupported or missing message. */
  function OptionOf(msg: Option<Sum>): Option<Sum> {
    match msg
    case None => None
    case Some(Single(l)) => if l.kind in OPTION_KINDS then msg else None
    case Some(Batch(us)) =>
      match Messages(us)
      case None => None
      case Some(ls) => Some(Batch(Unions(Proposable(ls))))
  }

  /** Which messages an option can be built for at all. */
  lemma OptionExists(msg: Option<Sum>)
    ensures OptionOf(msg).Some? <==>
            msg.Some? && match msg.value
                         case Single(l) => l.kind in OPTION_KINDS
                         case Batch(us) => None !in us
  {
    if msg.Some? && msg.value.Batch? {
      assert forall u | u in msg.value.messages :: u.Some? <==> u != None;
    }
  }

  /** The loop over the messages of a batch. */
  method ProposalMessages(msgs: array<Leaf>) returns (messages: seq<Union>)
    ensures messages == Unions(Proposable(msgs[..]))
  {
    ghost var ls := msgs[..];
    messages := [];
    for i := 0 to msgs.Length
      invariant messages == Unions(Proposable(ls[..i]))
    {
      assert ls[..i + 1][..i] == ls[..i];
      if msgs[i].kind in PROPOSAL_BATCH_KINDS {
        messages := messages + [Some(msgs[i])];
      }
    }
    assert ls[..msgs.Length] == ls;
  }

  method ToOption(msg: Option<Sum>, encodes: Accepts) returns (ok: bool, rawOption: bytes)
    requires |EncAll(SumRecs(OptionOf(msg)))| < TWO_63
    ensures ok <==> OptionOf(msg).Some? && SumEncodes(encodes, OptionOf(msg))
    ensures ok ==> rawOption == EncAll(SumRecs(OptionOf(msg)))
  {
    var option: Option<Sum> := None;
    rawOption := [];
    match msg {
      case None =>
        return false, [];
      case Some(Single(l)) =>
        if l.kind !in OPTION_KINDS {
          return false, [];
        }
        option := Some(Single(l));
      case Some(Batch(us)) =>
        var msgs;
        ok, msgs := MsgList(us);
        if !ok {
          return;
        }
        var messages := ProposalMessages(msgs);
        option := Some(Batch(messages));
    }
    var record := new OptionRecord(option);
    var raw;
    ok, raw := record.Marshal(encodes);
    return ok, raw[..];
  }

  /** `decodeProposalOptions`: an unset option has no message. */
  function DecodeOption(accepts: Accepts, raw: bytes): Option<Sum> {
    match Decode(OptionStep(accepts), None, raw)
    case None => None
    case Some(s) => s
  }

  method DecodeProposalOptions(accepts: Accepts, raw: bytes) returns (msg: Option<Sum>)
    requires |raw| < TWO_63
    ensures msg == DecodeOption(accepts, raw)
  {
    var model := new OptionRecord(None);
    var ok := model.Unmarshal(accepts, raw);
    return if ok then model.option else None;
  }

  lemma {:induction false} ProposableMembers(ls: seq<Leaf>, l: Leaf)
    requires l in Proposable(ls)
    ensures l in ls && l.kind in PROPOSAL_BATCH_KINDS
  {
    var n := |ls| - 1;
    assert ls == ls[..n] + [ls[n]];
    if l in Proposable(ls[..n]) {
      ProposableMembers(ls[..n], l);
    }
  }

  lemma {:induction false} ProposableKeepsAll(ls: seq<Leaf>)
    requires forall l | l in ls :: l.kind in PROPOSAL_BATCH_KINDS
    ensures Proposable(ls) == ls
  {
    if ls != [] {
      var n := |ls| - 1;
      assert ls == ls[..n] + [ls[n]];
      ProposableKeepsAll(ls[..n]);
    }
  }

  lemma ProposableKinds(ls: seq<Leaf>)
    ensures forall l | l in Proposable(ls) :: l in ls && l.kind in PROPOSAL_BATCH_KINDS
    ensures Proposable(ls) == ls <==> forall l | l in ls :: l.kind in PROPOSAL_BATCH_KINDS
  {
    forall l | l in Proposable(ls) ensures l in ls && l.kind in PROPOSAL_BATCH_KINDS {
      ProposableMembers(ls, l);
    }
    if forall l | l in ls :: l.kind in PROPOSAL_BATCH_KINDS {
      ProposableKeepsAll(ls);
    }
  }

  /** It works message by message and keeps the order, so it is the subsequence of those with a case. */
  lemma {:induction false} ProposableSplits(a: seq<Leaf>, b: seq<Leaf>)
    ensures Proposable(a + b) == Proposable(a) + Proposable(b)
    ensures |b| == 1 ==> Proposable(b) == if b[0].kind in PROPOSAL_BATCH_KINDS then b else []
    decreases |b|
  {
    if b == [] {
      assert a + b == a;
    } else {
      var n := |b| - 1;
      assert (a + b)[..|a + b| - 1] == a + b[..n];
      ProposableSplits(a, b[..n]);
    }
  }

  /** Any batch: decoding the option gives exactly its proposable messages, in order. */
  lemma BatchToProposal(accepts: Accepts, ls: seq<Leaf>)
    requires forall l | l in ls :: accepts(Message(l.kind), l.body)
    requires |EncAll(SumRecs(OptionOf(Some(Batch(Unions(ls))))))| < TWO_63
    ensures DecodeOption(accepts, EncAll(SumRecs(OptionOf(Some(Batch(Unions(ls)))))))
         == Some(Batch(Unions(Proposable(ls))))
    ensures Messages(Unions(Proposable(ls))) == Some(Proposable(ls))
  {
    MessagesOfUnions(ls);
    ProposableKinds(ls);
    MessagesOfUnions(Proposable(ls));
    var us := Unions(Proposable(ls));
    forall u | u in us ensures u.Some? ==> LeafOk(accepts, PROPOSAL_BATCH_KINDS, u.value) {
      var i :| 0 <= i < |us| && us[i] == u;
      assert u.value == Proposable(ls)[i];
    }
    OptionDecodes(accepts, None, OptionOf(Some(Batch(Unions(ls)))));
  }

  /** Nothing is lost exactly when every message of the batch may occur in a proposal batch. */
  lemma BatchSurvives(ls: seq<Leaf>)
    ensures OptionOf(Some(Batch(Unions(ls)))) == Some(Batch(Unions(ls)))
       <==> forall l | l in ls :: l.kind in PROPOSAL_BATCH_KINDS
  {
    MessagesOfUnions(ls);
    ProposableKinds(ls);
    if Unions(Proposable(ls)) == Unions(ls) {
      MessagesOfUnions(Proposable(ls));
    }
  }

  /** A batch the batch command itself builds but a proposal silently empties. */
  lemma BatchLosesMessages(body: bytes)
    ensures var ls := [Leaf(MultisigCreate, body)];
            (forall l | l in ls :: l.kind in BATCH_KINDS) &&
            OptionOf(Some(Batch(Unions(ls)))) == Some(Batch([]))
  {
    var ls := [Leaf(MultisigCreate, body)];
    MessagesOfUnions(ls);
    assert Proposable(ls[..0]) == [];
    assert Proposable(ls) == [];
    assert Unions([]) == [];
  }

  /** Any other supported message comes back as itself; the unsupported ones are refused. */
  lemma MessageToProposal(accepts: Accepts, l: Leaf)
    requires accepts(Message(l.kind), l.body) && |EncAll(SumRecs(Some(Single(l))))| < TWO_63
    ensures OptionOf(Some(Single(l))).Some? <==> l.kind in OPTION_KINDS
    ensures l.kind in OPTION_KINDS ==>
              DecodeOption(accepts, EncAll(SumRecs(OptionOf(Some(Single(l)))))) == Some(Single(l))
  {
    if l.kind in OPTION_KINDS {
      OptionDecodes(accepts, None, Some(Single(l)));
    }
  }
}
