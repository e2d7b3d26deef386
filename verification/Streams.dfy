/** Length-prefixed transaction streams (cmd/grafaincli/common.go). Readers and writers are in memory. */
module Streams {
  import opened Wire
  import opened AppCodec
  import opened AppRecords
  import opened BigEndian

  const HEADER_SIZE := 4

  // ----- Frames -----

  function Header(length: nat): bytes {
    EncBE(length % TWO_32, HEADER_SIZE)
  }

  function Frame(tx: Tx): bytes {
    var b := EncAll(TxRecs(tx));
    Header(|b|) + b
  }

  datatype Read = Eof | Failed | Got(tx: Tx, rest: bytes)

  function HeaderBytes(s: bytes): (n: nat)
    ensures n <= |s|
  {
    if |s| < HEADER_SIZE then |s| else HEADER_SIZE
  }

  /** The size read from the front of `s`; missing header bytes stay zero. */
  function FrameSize(s: bytes): nat {
    DecBE(Padded(s[..HeaderBytes(s)]))
  }

  /** The header buffer after `h` has been read into it. */
  function Padded(h: bytes): (r: bytes)
    requires |h| <= HEADER_SIZE
    ensures |r| == HEADER_SIZE && h <= r
  {
    h + seq(HEADER_SIZE - |h|, _ => 0)
  }

  /** What readTx makes of the unread input `s`. */
  function ReadFrame(accepts: Accepts, s: bytes): (r: Read)
    ensures r.Got? ==> |r.rest| < |s|
  {
    if s == [] then Eof
    else
      var size := FrameSize(s);
      var body := s[HeaderBytes(s)..];
      if size > 0 && body == [] then Eof
      else if |body| < size then Failed
      else match Decode(TxStep(accepts), NO_TX, body[..size])
           case None => Failed
           case Some(tx) => Got(tx, body[size..])
  }

  /** A written header is read back, whatever follows it. */
  lemma HeaderIsRead(length: nat, more: bytes)
    requires length < TWO_32
    ensures var s := Header(length) + more; FrameSize(s) == length && s[HeaderBytes(s)..] == more
  {
    var s := Header(length) + more;
    HeaderOf(length);
    DecodeOfEncode(length, HEADER_SIZE);
    assert s[..HEADER_SIZE] == Header(length);
    assert Padded(Header(length)) == Header(length);
  }

  /** The size read from an incomplete header is zero exactly when every byte of it is. */
  lemma ShortHeaderSize(t: bytes)
    requires |t| <= HEADER_SIZE
    ensures FrameSize(t) == 0 <==> forall i | 0 <= i < |t| :: t[i] == 0
  {
    assert t[..|t|] == t;
    DecodesToZero(Padded(t));
    assert forall i | 0 <= i < HEADER_SIZE :: Padded(t)[i] == if i < |t| then t[i] else 0;
  }

  /** For a header that is cut: exactly when the length fits the missing bytes. */
  lemma CutHeaderSize(length: nat, c: nat)
    requires length < TWO_32 && c <= HEADER_SIZE
    ensures FrameSize(Header(length)[..c]) == 0 <==> length < Pow256(HEADER_SIZE - c)
  {
    HeaderOf(length);
    LeadingZeros(length, HEADER_SIZE, c);
    ShortHeaderIsZero(EncBE(length, HEADER_SIZE)[..c]);
  }

  lemma HeaderOf(length: nat)
    requires length < TWO_32
    ensures Header(length) == EncBE(length, HEADER_SIZE) && length < Pow256(HEADER_SIZE)
  {
    Widths();
    assert length % TWO_32 == length;
  }

  lemma ShortHeaderIsZero(t: bytes)
    requires |t| <= HEADER_SIZE
    ensures FrameSize(t) == 0 <==> DecBE(t) == 0
  {
    ShortHeaderSize(t);
    DecodesToZero(t);
  }

  lemma FrameIsRead(accepts: Accepts, tx: Tx, rest: bytes)
    requires TxOk(accepts, tx) && |EncAll(TxRecs(tx))| < TWO_32
    ensures ReadFrame(accepts, Frame(tx) + rest) == Got(tx, rest)
  {
    var b := EncAll(TxRecs(tx));
    BodyIsRead(accepts, tx, b, rest);
    assert Frame(tx) + rest == Header(|b|) + (b + rest);
  }

  /** The size header, byte by byte: the length cut to 32 bits. */
  lemma HeaderIsBytes(length: nat)
    ensures var n := length % 0x1_0000_0000;
            Header(length) == [n / 0x100_0000 % 0x100, n / 0x1_0000 % 0x100, n / 0x100 % 0x100, n % 0x100]
  {
    FourBytes(length % TWO_32);
  }

  /** Any complete frame, whatever its body: read if the body decodes to a transaction, an error if not. */
  lemma AnyFrameIsRead(accepts: Accepts, b: bytes, rest: bytes)
    requires |b| < TWO_32
    ensures ReadFrame(accepts, Header(|b|) + b + rest) ==
            match Decode(TxStep(accepts), NO_TX, b) case None => Failed case Some(tx) => Got(tx, rest)
  {
    HeaderIsRead(|b|, b + rest);
    assert Header(|b|) + b + rest == Header(|b|) + (b + rest);
    assert (b + rest)[..|b|] == b && (b + rest)[|b|..] == rest;
  }

  lemma BodyIsRead(accepts: Accepts, tx: Tx, b: bytes, rest: bytes)
    requires TxOk(accepts, tx) && b == EncAll(TxRecs(tx)) && |b| < TWO_32
    ensures ReadFrame(accepts, Header(|b|) + (b + rest)) == Got(tx, rest)
  {
    HeaderIsRead(|b|, b + rest);
    assert (b + rest)[..|b|] == b && (b + rest)[|b|..] == rest;
    TxRoundTrip(accepts, tx);
  }

  class Reader {
    var rest: bytes

    constructor (input: bytes)
      ensures rest == input
    {
      rest := input;
    }

    /** `Read` into a buffer of `n` bytes: as many as there are, end of input only when there are none. */
    method Read(n: nat) returns (b: bytes, eof: bool)
      modifies this
      ensures eof <==> n > 0 && old(rest) == []
      ensures |b| == if n <= |old(rest)| then n else |old(rest)|
      ensures b == old(rest)[..|b|]
      ensures rest == old(rest)[|b|..]
    {
      var k := if n <= |rest| then n else |rest|;
      eof := n > 0 && rest == [];
      b, rest := rest[..k], rest[k..];
    }
  }

  /** An output that takes `room` more bytes and fails on any further one. */
  class Writer {
    var out: bytes
    var room: nat

    constructor (capacity: nat)
      ensures out == [] && room == capacity
    {
      out, room := [], capacity;
    }

    method Write(b: bytes) returns (ok: bool, n: nat)
      modifies this
      ensures n == Fitting(|b|, old(room)) && (ok <==> n == |b|)
      ensures out == old(out) + b[..n] && room == old(room) - n
    {
      n := Fitting(|b|, room);
      ok := n == |b|;
      out, room := out + b[..n], room - n;
    }
  }

  function Fitting(length: nat, room: nat): (n: nat)
    ensures n <= length && n <= room && (n == length || n == room)
  {
    if length <= room then length else room
  }

  /** The result of readTx: io.EOF, any other error, or no error. */
  datatype Status = EndOfFile | Error | Ok

  /** Nothing is written for a transaction that does not marshal, else as much of its frame as fits. */
  method WriteTx(w: Writer, tx: TxRecord, encodes: Accepts) returns (ok: bool, n: nat)
    requires |EncAll(TxRecs(tx.View()))| < TWO_63
    modifies w
    ensures n == if TxEncodes(encodes, tx.View()) then Fitting(|Frame(tx.View())|, old(w.room)) else 0
    ensures ok <==> TxEncodes(encodes, tx.View()) && n == |Frame(tx.View())|
    ensures w.out == old(w.out) + Frame(tx.View())[..n] && w.room == old(w.room) - n
  {
    var b;
    ok, b := tx.Marshal(encodes);
    if !ok {
      return false, 0;
    }
    ok, n := WriteFrame(w, b[..]);
  }

  method WriteFrame(w: Writer, b: bytes) returns (ok: bool, n: nat)
    modifies w
    ensures n == Fitting(HEADER_SIZE + |b|, old(w.room)) && (ok <==> n == HEADER_SIZE + |b|)
    ensures w.out == old(w.out) + (Header(|b|) + b)[..n] && w.room == old(w.room) - n
  {
    ghost var before := w.out;
    var size := Header(|b|);
    ok, n := w.Write(size);
    if !ok {
      assert (size + b)[..n] == size[..n];
      return false, n;
    }
    ghost var between := w.out;
    var written := |size|;
    ok, n := w.Write(b);
    assert size[..written] == size;
    assert (size + b)[..written + n] == size + b[..n];
    assert before + (size + b[..n]) == between + b[..n];
    return ok, written + n;
  }

  method ReadTx(r: Reader, accepts: Accepts) returns (status: Status, tx: TxRecord)
    requires |r.rest| < TWO_63
    modifies r
    ensures fresh(tx)
    ensures status == match ReadFrame(accepts, old(r.rest)) case Eof => EndOfFile case Failed => Error case Got(_, _) => Ok
    ensures status == Ok ==> Got(tx.View(), r.rest) == ReadFrame(accepts, old(r.rest))
  {
    ghost var s := r.rest;
    tx := new TxRecord(NO_TX);
    var header, eof := r.Read(HEADER_SIZE);
    if eof {
      return EndOfFile, tx;
    }
    var msgSize := DecBE(Padded(header));
    assert msgSize == FrameSize(s) && r.rest == s[HeaderBytes(s)..];
    var raw;
    raw, eof := r.Read(msgSize);
    if eof {
      return EndOfFile, tx;
    }
    if |raw| < msgSize {
      return Error, tx;
    }
    var ok := tx.Unmarshal(accepts, raw);
    return (if ok then Ok else Error), tx;
  }
}
