/** Sending DTLS handshake flights: queueing messages, cutting them into
    fragments that fit the MTU, rolling back failed writes, retransmission and
    write key changes.  Each step is given as a function on values;
    DtlsWriteState carries them out in place. */
module DtlsWriter {
  import opened Bytes
  import opened Reassembly
  import opened DtlsWire

  const RT_HEADER := 13
  const MIN_MTU := 256 - 28
  const DEFAULT_MTU := 1500 - 28

  /** The sizes a cipher adds: the explicit nonce, a tag or MAC, and the padding
      of a block cipher (block is 0 when there is none). */
  datatype Cipher = Cipher(nonceLen: nat, mac: nat, block: nat)

  function NullCipher(): Cipher { Cipher(0, 0, 0) }

  /** The bytes after the ciphertext proper; between 1 and block bytes of padding
      complete the last block. */
  function TagLen(c: Cipher, n: nat): (t: nat)
    ensures t <= c.mac + c.block
  {
    if c.block == 0 then c.mac else c.mac + (c.block - (n + c.mac) % c.block)
  }

  function CiphertextLen(c: Cipher, n: nat): (len: nat)
    ensures len <= n + c.nonceLen + c.mac + c.block
  {
    c.nonceLen + n + TagLen(c, n)
  }

  function Overhead(c: Cipher): nat { RT_HEADER + c.nonceLen + c.mac + c.block }

  datatype OutMsg = OutMsg(data: bytes, epoch: nat, isCcs: bool)

  /** transcript, sealed and log are histories: the messages given to the
      handshake transcript, every record sealed, and the records accepted by the
      transport since the last rewind. */
  datatype Writer = Writer(
    flight: seq<OutMsg>,
    written: nat,
    offset: nat,
    complete: bool,
    hasReply: bool,
    writeSeq: nat,
    gen: nat,
    nextSeq: nat,
    lastSeq: nat,
    cur: Cipher,
    prev: Cipher,
    mtu: nat,
    transcript: seq<bytes>,
    sealed: seq<Record>,
    log: seq<Record>)

  function Start(): Writer {
    Writer([], 0, 0, false, false, 0, 0, 0, 0, NullCipher(), NullCipher(), 0, [], [], [])
  }

  // ---------- Queueing ----------

  function Clear(w: Writer): Writer {
    w.(flight := [], written := 0, offset := 0, complete := false, hasReply := false, log := [])
  }

  /** add_outgoing; the flag is its result. */
  function AddOutgoing(w: Writer, isCcs: bool, data: bytes): (Writer, bool) {
    var w1 := if w.complete then Clear(w) else w;
    if |w1.flight| >= N || |data| > 0xffff_ffff then (w1, false)
    else
      var w2 := if isCcs then w1
                else w1.(transcript := w1.transcript + [data], writeSeq := (w1.writeSeq + 1) % SEQ16);
      (w2.(flight := w2.flight + [OutMsg(data, Epoch(w2.gen), isCcs)]), true)
  }

  // ---------- Sealing ----------

  /** dtls_seal_record under the current or the previous write keys.  When the
      48-bit counter overflows the call fails and leaves the counter at zero. */
  function SealRecord(w: Writer, typ: byte, plain: bytes, usePrev: bool, maxOut: nat): (Writer, Option<Record>) {
    var c := if usePrev then w.prev else w.cur;
    var s := if usePrev then w.lastSeq else w.nextSeq;
    var g := if usePrev then w.gen - 1 else w.gen;
    var clen := CiphertextLen(c, |plain|);
    if g < 0 || maxOut < RT_HEADER || clen >= 0xffff || clen > maxOut - RT_HEADER then (w, None)
    else
      var rec := Record(typ, Number(Epoch(g), s), Sealed(g, plain));
      var s' := (s + 1) % SEQ48;
      var w' := if usePrev then w.(lastSeq := s') else w.(nextSeq := s');
      if s' == 0 then (w', None) else (w'.(sealed := w.sealed + [rec]), Some(rec))
  }

  datatype SealResult = SealError | NoProgress | SealPartial(rec: Record, len: nat) | SealSuccess(rec: Record, len: nat)

  /** Which keys a queued message is due: 0 current, 1 previous, 2 neither. */
  function KeysFor(w: Writer, epoch: nat): nat {
    if Epoch(w.gen) >= 1 && epoch == Epoch(w.gen) - 1 then 1
    else if epoch == Epoch(w.gen) then 0 else 2
  }

  function Min(a: nat, b: nat): nat { if a <= b then a else b }

  /** The fragment of a message that starts at off and carries todo bytes. */
  function Piece(h: Header, body: bytes, off: nat, todo: nat): bytes
    requires off + todo <= |body|
  {
    EncodeFragment(Header(h.typ, h.msgLen, h.seqNum, off, todo), body[off..off + todo])
  }

  function SealNext(w: Writer, maxOut: nat): (r: (Writer, SealResult))
    requires w.written < |w.flight|
  {
    var msg := w.flight[w.written];
    var keys := KeysFor(w, msg.epoch);
    if keys == 2 then (w, SealError)
    else
      var c := if keys == 1 then w.prev else w.cur;
      if msg.isCcs then
        if maxOut < 1 + Overhead(c) then (w, NoProgress)
        else
          match SealRecord(w, CHANGE_CIPHER_SPEC, [CCS_BYTE], keys == 1, maxOut)
          case (w', None) => (w', SealError)
          case (w', Some(rec)) => (w', SealSuccess(rec, RT_HEADER + CiphertextLen(c, 1)))
      else
        match Parsed(msg.data, w.offset)
        case None => (w, SealError)
        case Some((h, body)) =>
          if maxOut < HM_HEADER_LENGTH + 1 + Overhead(c) then (w, NoProgress)
          else
            var todo := Min(|body| - w.offset, maxOut - HM_HEADER_LENGTH - Overhead(c));
            match SealRecord(w, HANDSHAKE, Piece(h, body, w.offset, todo), keys == 1, maxOut)
            case (w', None) => (w', SealError)
            case (w', Some(rec)) =>
              var len := RT_HEADER + CiphertextLen(c, HM_HEADER_LENGTH + todo);
              if todo == |body| - w.offset then (w'.(offset := 0), SealSuccess(rec, len))
              else (w'.(offset := w.offset + todo), SealPartial(rec, len))
  }

  /** The loop of seal_next_packet; None when it fails. */
  function SealMore(w: Writer, maxOut: nat, recs: seq<Record>): (r: (Writer, Option<seq<Record>>))
    decreases |w.flight| - w.written
  {
    if w.written >= |w.flight| then (w, if recs == [] then None else Some(recs))
    else
      match SealNext(w, maxOut)
      case (w', SealError) => (w', None)
      case (w', NoProgress) => (w', if recs == [] then None else Some(recs))
      case (w', SealPartial(rec, len)) => (w', Some(recs + [rec]))
      case (w', SealSuccess(rec, len)) =>
        // The record fits, so the subtraction cannot underflow.
        SealMore(w'.(written := w.written + 1), if len <= maxOut then maxOut - len else 0, recs + [rec])
  }

  function SealPacket(w: Writer): (Writer, Option<seq<Record>>) {
    SealMore(w, w.mtu, [])
  }

  /** One round of send_flight: a packet is sealed and offered to the transport.
      A refused packet puts the position back; the numbers it used stay used. */
  function SendPacket(w: Writer, accepted: bool): (Writer, Option<seq<Record>>) {
    match SealPacket(w)
    case (w', None) => (w', None)
    case (w', Some(recs)) =>
      if accepted then (w'.(log := w.log + recs), Some(recs))
      else (w'.(written := w.written, offset := w.offset), Some(recs))
  }

  // ---------- The other steps ----------

  function Rewind(w: Writer): Writer { w.(written := 0, offset := 0, log := []) }

  function NewWriteKeys(w: Writer, c: Cipher): Writer {
    w.(gen := w.gen + 1, lastSeq := w.nextSeq, nextSeq := 0, prev := w.cur, cur := c)
  }

  /** dtls1_update_mtu, given what the transport answers when asked. */
  function UpdateMtu(mtu: nat, noQuery: bool, answer: int): nat {
    if mtu < MIN_MTU && !noQuery then
      if MIN_MTU <= answer <= 0x4000_0000 then answer else DEFAULT_MTU
    else mtu
  }

  /** The MTU step of dtls1_check_timeout_num. */
  function FallbackMtu(mtu: nat, timeouts: nat, noQuery: bool, answer: int): nat {
    if timeouts > 2 && !noQuery && MIN_MTU <= answer <= 0x4000_0000 then answer else mtu
  }

  // ---------- Runs ----------

  /** Everything the sending side is asked to do, including records that are not
      part of the handshake. */
  datatype Event =
    | AddMessage(typ: byte, body: bytes)
    | AddChangeCipherSpec
    | BeginFlush
    | Packet(accepted: bool)
    | Retransmit
    | WriteKeys(cipher: Cipher)
    | OtherRecord(alert: bool, plain: bytes, room: nat)
    | SetMtu(mtu: nat)
    | ReplySeen
    | HandshakeComplete

  /** One event; None when the connection fails. */
  function Step(w: Writer, e: Event): Option<Writer> {
    match e
    case AddMessage(typ, body) =>
      if |body| >= Limit(3) then None
      else
        var (w', ok) := AddOutgoing(w, false, Message(typ, w.writeSeq, body));
        if ok then Some(w') else None
    case AddChangeCipherSpec =>
      var (w', ok) := AddOutgoing(w, true, []);
      if ok then Some(w') else None
    case BeginFlush => Some(w.(complete := true))
    case Packet(accepted) =>
      if w.written >= |w.flight| then Some(w)
      else
        var (w', recs) := SendPacket(w, accepted);
        if recs.Some? then Some(w') else None
    case Retransmit => Some(Rewind(w))
    case WriteKeys(cipher) => Some(NewWriteKeys(w, cipher))
    case OtherRecord(alert, plain, room) =>
      var (w', rec) := SealRecord(w, if alert then ALERT else APPLICATION_DATA, plain, false, room);
      if rec.Some? then Some(w') else None
    case SetMtu(mtu) => Some(w.(mtu := mtu))
    case ReplySeen => Some(w.(hasReply := w.hasReply || w.complete))
    case HandshakeComplete => Some(if w.hasReply then Clear(w) else w)
  }

  function Run(w: Writer, es: seq<Event>): Option<Writer>
    decreases |es|
  {
    if es == [] then Some(w)
    else
      match Step(w, es[0])
      case None => None
      case Some(w') => Run(w', es[1..])
  }
}
