/** Writing a TLS stream: handshake bytes gathered in pending_hs_data, sealed
    records gathered in pending_flight, and the write buffer in front of the
    transport.  Each operation is given as a function on values; TlsWriteState
    carries them out in place. */
module TlsWriter {
  import opened Bytes
  import opened TlsBuffer

  const CHANGE_CIPHER_SPEC: byte := 20
  const ALERT: byte := 21
  const HANDSHAKE: byte := 22
  const APPLICATION_DATA: byte := 23
  const CCS_BYTE: byte := 1
  const WARNING: byte := 1
  const FATAL: byte := 2
  const CLOSE_NOTIFY: byte := 0
  const RECORD_HEADER := 5
  const MAX_PLAIN := 16384
  const INT_MAX := 0x7fff_ffff

  /** A record: what was sealed and the bytes that came of it. */
  datatype Sealing = Sealing(typ: byte, plain: bytes, wire: bytes)

  /** wpend_tot (and wpend_ret, which equals it), wpend_buf and wpend_type. */
  datatype Pending = Pending(tot: nat, buf: nat, typ: byte)

  /** write_shutdown. */
  datatype Shutdown = Open | CloseSent | ErrorSent

  /** The closing alert: how writing was shut down, whether the alert is still to
      be sent, and send_alert. */
  datatype Closing = Closing(shutdown: Shutdown, dispatch: bool, level: byte, desc: byte)

  /** seal(n, typ, plain) is the n-th record, or None when sealing fails; the
      transport's k-th answer is answer(k), the allocator's k-th block alloc(k). */
  datatype Env = Env(
    seal: (nat, byte, bytes) -> Option<bytes>,
    answer: nat -> int,
    alloc: nat -> Alloc,
    maxFragment: nat,
    maxEarly: nat,
    partialWrite: bool,
    movingBuffer: bool)

  /** aead_write_ctx: overhead is the most sealing adds, prefix what it puts in
      front of the body. */
  datatype Aead = Aead(nullCipher: bool, overhead: nat, prefix: nat)

  /** The last five fields are histories: transport calls, the most ever asked of
      the write buffer, whether sealing has ever failed, the bytes the transport
      took and the records sealed. */
  datatype Writer = Writer(
    hs: bytes,
    flight: Option<bytes>,
    off: nat,
    buf: Buf,
    pend: Option<Pending>,
    wnum: nat,
    aead: Aead,
    closing: Closing,
    canEarly: bool,
    earlyWritten: nat,
    calls: nat,
    asked: nat,
    failed: bool,
    wire: bytes,
    sealed: seq<Sealing>)

  function Start(): Writer {
    Writer([], None, 0, Buf(Nowhere, seq(INLINE, _ => 0), 0, 0, 0), None, 0, Aead(true, RECORD_HEADER, RECORD_HEADER),
           Closing(Open, false, 0, 0), false, 0, 0, 0, false, [], [])
  }

  predicate EnvOk(e: Env) {
    1 <= e.maxFragment <= MAX_PLAIN
  }

  predicate WriterOk(w: Writer) {
    && BufOk(w.buf)
    && w.off <= |FlightBytes(w)|
  }

  function FlightBytes(w: Writer): bytes {
    if w.flight.Some? then w.flight.value else []
  }

  function Min(a: nat, b: nat): nat { if a <= b then a else b }

  // ---------- Sealing ----------

  /** tls_seal_record into room bytes. */
  function Seal(w: Writer, e: Env, typ: byte, plain: bytes, room: nat): Option<Sealing> {
    match e.seal(|w.sealed|, typ, plain)
    case None => None
    case Some(wire) => if |wire| > room then None else Some(Sealing(typ, plain, wire))
  }

  /** add_record_to_flight. */
  function AddRecord(w: Writer, e: Env, typ: byte, plain: bytes): (r: (Writer, bool))
    requires WriterOk(w)
    ensures WriterOk(r.0) && r.0.buf == w.buf && r.0.hs == w.hs
  {
    var w1 := w.(flight := Some(FlightBytes(w)));
    match Seal(w, e, typ, plain, |plain| + w.aead.overhead)
    case None => (w1.(failed := true), false)
    case Some(s) => (w1.(flight := Some(FlightBytes(w) + s.wire), sealed := w.sealed + [s]), true)
  }

  // ---------- Handshake data ----------

  /** tls_flush_pending_hs_data. */
  function FlushHs(w: Writer, e: Env): (r: (Writer, bool))
    requires WriterOk(w)
    ensures WriterOk(r.0) && r.0.buf == w.buf && r.0.hs == []
  {
    if w.hs == [] then (w, true) else AddRecord(w.(hs := []), e, HANDSHAKE, w.hs)
  }

  /** The chunks of tls_add_message under the null cipher. */
  function AddChunks(w: Writer, e: Env, rest: bytes): (r: (Writer, bool))
    requires WriterOk(w) && EnvOk(e)
    ensures WriterOk(r.0)
    decreases |rest|
  {
    if rest == [] then (w, true)
    else
      var n := Min(|rest|, e.maxFragment);
      match AddRecord(w, e, HANDSHAKE, rest[..n])
      case (w', false) => (w', false)
      case (w', true) => AddChunks(w', e, rest[n..])
  }

  /** The chunks of tls_add_message otherwise: a full buffer is flushed first. */
  function Pack(w: Writer, e: Env, rest: bytes): (r: (Writer, bool))
    requires WriterOk(w) && EnvOk(e)
    ensures WriterOk(r.0)
    decreases |rest|
  {
    if rest == [] then (w, true)
    else
      match MakeRoom(w, e)
      case (w1, false) => (w1, false)
      case (w1, true) =>
        var n := Min(|rest|, e.maxFragment - |w1.hs|);
        Pack(w1.(hs := w1.hs + rest[..n]), e, rest[n..])
  }

  /** Full pending data is flushed. */
  function MakeRoom(w: Writer, e: Env): (r: (Writer, bool))
    requires WriterOk(w) && EnvOk(e)
    ensures WriterOk(r.0) && |r.0.hs| < e.maxFragment
  {
    if |w.hs| >= e.maxFragment then FlushHs(w, e) else (w, true)
  }

  function AddMessage(w: Writer, e: Env, msg: bytes): (r: (Writer, bool))
    requires WriterOk(w) && EnvOk(e)
    ensures WriterOk(r.0)
  {
    if w.aead.nullCipher then AddChunks(w, e, msg) else Pack(w, e, msg)
  }

  function AddChangeCipherSpec(w: Writer, e: Env): (r: (Writer, bool))
    requires WriterOk(w)
    ensures WriterOk(r.0)
  {
    match FlushHs(w, e)
    case (w1, false) => (w1, false)
    case (w1, true) => AddRecord(w1, e, CHANGE_CIPHER_SPEC, [CCS_BYTE])
  }

  // ---------- The transport ----------

  /** What one write of n bytes returns. */
  function Answer(w: Writer, e: Env, n: nat): (r: int)
    ensures r <= n
  {
    if e.answer(w.calls) <= n then e.answer(w.calls) else n
  }

  /** tls_write_buffer_flush. */
  function FlushBuf(w: Writer, e: Env): (r: (Writer, int))
    requires WriterOk(w)
    ensures WriterOk(r.0) && (r.1 > 0 ==> r.0.buf.size == 0)
    decreases w.buf.size
  {
    if w.buf.size == 0 then (w.(buf := Cleared(w.buf)), 1)
    else
      match WriteSome(w, e)
      case (w1, n) => if n <= 0 then (w1, n) else FlushBuf(w1, e)
  }

  /** One write from the front of the buffer. */
  function WriteSome(w: Writer, e: Env): (r: (Writer, int))
    requires WriterOk(w) && w.buf.size > 0
    ensures WriterOk(r.0) && (r.1 > 0 ==> r.0.buf.size < w.buf.size)
  {
    var n := Answer(w, e, w.buf.size);
    var w1 := w.(calls := w.calls + 1);
    if n <= 0 then (w1, n)
    else (w1.(wire := w.wire + Contents(w.buf)[..n], buf := Consumed(w.buf, n)), n)
  }

  /** The loop that writes pending_flight; 1 when all is written. */
  function WriteFlight(w: Writer, e: Env): (r: (Writer, int))
    requires WriterOk(w)
    ensures WriterOk(r.0)
    decreases |FlightBytes(w)| - w.off
  {
    if w.off == |FlightBytes(w)| then (w, 1)
    else
      match WriteFlightSome(w, e)
      case (w1, n) => if n <= 0 then (w1, n) else WriteFlight(w1, e)
  }

  /** One write from the flight. */
  function WriteFlightSome(w: Writer, e: Env): (r: (Writer, int))
    requires WriterOk(w) && w.off < |FlightBytes(w)|
    ensures WriterOk(r.0) && r.0.flight == w.flight && (r.1 > 0 ==> r.0.off > w.off)
  {
    var n := Answer(w, e, |FlightBytes(w)| - w.off);
    var w1 := w.(calls := w.calls + 1);
    if n <= 0 then (w1, n) else (w1.(wire := w.wire + FlightBytes(w)[w.off..][..n], off := w.off + n), n)
  }

  /** tls_flush_flight. */
  function FlushFlight(w: Writer, e: Env): (r: (Writer, int))
    requires WriterOk(w)
    ensures WriterOk(r.0)
  {
    var (w1, ok) := FlushHs(w, e);
    if !ok then (w1, -1)
    else if w1.flight.None? then (w1, 1)
    else if w1.closing.shutdown != Open || |w1.flight.value| > INT_MAX then (w1, -1)
    else
      var (w2, r2) := if w1.buf.size > 0 then FlushBuf(w1, e) else (w1, 1);
      if r2 <= 0 then (w2, r2) else FinishFlight(w2, e)
  }

  function FinishFlight(w: Writer, e: Env): (r: (Writer, int))
    requires WriterOk(w)
    ensures WriterOk(r.0)
  {
    var (w1, r1) := WriteFlight(w, e);
    if r1 <= 0 then (w1, r1)
    else
      // BIO_flush.
      var w2 := w1.(calls := w1.calls + 1);
      if e.answer(w1.calls) <= 0 then (w2, -1) else (w2.(flight := None, off := 0), 1)
  }

  // ---------- Records through the write buffer ----------

  /** tls_write_pending. */
  function WritePending(w: Writer, e: Env, typ: byte, len: nat, id: nat): (r: (Writer, int))
    requires WriterOk(w) && w.pend.Some?
    ensures WriterOk(r.0) && r.1 <= len
  {
    var p := w.pend.value;
    if p.tot > len || (!e.movingBuffer && p.buf != id) || p.typ != typ then (w, -1)
    else
      var (w1, r1) := FlushBuf(w, e);
      if r1 <= 0 then (w1, r1) else (w1.(pend := None), p.tot)
  }

  /** The room do_tls_write asks for. */
  function MaxOut(w: Writer, plain: bytes): nat
    requires WriterOk(w)
  {
    |FlightBytes(w)| - w.off + if plain == [] then 0 else |plain| + w.aead.overhead
  }

  /** do_tls_write; id stands for the address of the caller's bytes. */
  function DoWrite(w: Writer, e: Env, typ: byte, plain: bytes, id: nat): (r: (Writer, int))
    requires WriterOk(w)
    ensures WriterOk(r.0) && r.1 <= |plain|
  {
    if w.pend.Some? then WritePending(w, e, typ, |plain|, id)
    else if |plain| > MAX_PLAIN || w.buf.size > 0 then (w, -1)
    else
      var (w1, ok) := FlushHs(w, e);
      if !ok then (w1, -1) else WriteNew(w1, e, typ, plain, id)
  }

  /** The rest of do_tls_write, once no record is pending and the handshake bytes
      are in the flight. */
  function WriteNew(w: Writer, e: Env, typ: byte, plain: bytes, id: nat): (r: (Writer, int))
    requires WriterOk(w) && w.buf.size == 0
    ensures WriterOk(r.0) && r.1 <= |plain|
  {
    if MaxOut(w, plain) == 0 then (w, 0)
    else
      match Fill(w, e, typ, plain)
      case (w2, false) => (w2, -1)
      case (w2, true) => WritePending(w2.(pend := Some(Pending(|plain|, id, typ))), e, typ, |plain|, id)
  }

  /** The flight moves into the write buffer, and the new record behind it. */
  function Fill(w: Writer, e: Env, typ: byte, plain: bytes): (r: (Writer, bool))
    requires WriterOk(w) && w.buf.size == 0
    ensures WriterOk(r.0)
  {
    match MoveFlight(w, e, MaxOut(w, plain))
    case (w1, false) => (w1, false)
    case (w1, true) => if plain == [] then (w1, true) else SealIntoBuf(w1, e, typ, plain)
  }

  /** Room for n bytes, the record that follows the flight being aligned. */
  function Enlarge(w: Writer, e: Env, n: nat): (r: (Writer, bool))
    requires WriterOk(w)
    ensures WriterOk(r.0) && r.0 == w.(buf := r.0.buf, asked := r.0.asked)
    ensures r.0.buf.size == w.buf.size && Contents(r.0.buf) == Contents(w.buf) && (r.1 ==> r.0.buf.cap >= n)
  {
    var headerLen := |FlightBytes(w)| - w.off + w.aead.prefix;
    GrownKeeps(w.buf, headerLen, n, e.alloc(w.calls));
    var (buf, ok) := Grown(w.buf, headerLen, n, e.alloc(w.calls));
    (w.(buf := buf, asked := if n > w.asked then n else w.asked), ok)
  }

  /** Room for n bytes, of which the flight takes the first. */
  function MoveFlight(w: Writer, e: Env, n: nat): (r: (Writer, bool))
    requires WriterOk(w) && w.buf.size == 0 && |FlightBytes(w)| - w.off <= n
    ensures WriterOk(r.0)
  {
    match Enlarge(w, e, n)
    case (w1, false) => (w1, false)
    case (w1, true) =>
      if w.flight.None? then (w1, true)
      else (w1.(buf := Appended(w1.buf, w.flight.value[w.off..]), flight := None, off := 0), true)
  }

  function SealIntoBuf(w: Writer, e: Env, typ: byte, plain: bytes): (r: (Writer, bool))
    requires WriterOk(w)
    ensures WriterOk(r.0)
  {
    match Seal(w, e, typ, plain, w.buf.cap - w.buf.size)
    case None => (w.(failed := true), false)
    case Some(s) => (w.(buf := Appended(w.buf, s.wire), sealed := w.sealed + [s]), true)
  }

  // ---------- Application data ----------

  /** How much of n bytes one record takes. */
  function RecordSize(w: Writer, e: Env, n: nat, early: bool): (nw: nat)
    ensures nw <= n
  {
    var most := if early && w.earlyWritten <= e.maxEarly then Min(e.maxFragment, e.maxEarly - w.earlyWritten)
                else e.maxFragment;
    Min(most, n)
  }

  /** One round of the loop of tls_write_app_data, at offset tot. */
  function AppRound(w: Writer, e: Env, data: bytes, id: nat, tot: nat, early: bool): (r: (Writer, int))
    requires WriterOk(w) && tot <= |data|
    ensures WriterOk(r.0) && r.1 <= |data| - tot
  {
    var nw := RecordSize(w, e, |data| - tot, early);
    match DoWrite(w, e, APPLICATION_DATA, data[tot..tot + nw], id + tot)
    case (w1, r1) =>
      if r1 <= 0 then (w1.(wnum := tot), r1)
      else if early then (w1.(earlyWritten := w1.earlyWritten + r1), r1)
      else (w1, r1)
  }

  /** The loop of tls_write_app_data; the flag is out_needs_handshake. */
  function AppLoop(w: Writer, e: Env, data: bytes, id: nat, tot: nat, early: bool): (r: (Writer, int, bool))
    requires WriterOk(w) && tot <= |data|
    ensures WriterOk(r.0)
    decreases |data| - tot
  {
    if early && w.earlyWritten >= e.maxEarly then (w.(wnum := tot, canEarly := false), -1, true)
    else
      match AppRound(w, e, data, id, tot, early)
      case (w1, r1) =>
        if r1 <= 0 then (w1, r1, false)
        else if r1 == |data| - tot || e.partialWrite then (w1, tot + r1, false)
        else AppLoop(w1, e, data, id, tot + r1, early)
  }

  /** tls_write_app_data of data, which begins at id; inEarly says that this is a
      client in early data. */
  function WriteApp(w: Writer, e: Env, data: bytes, id: nat, inEarly: bool): (r: (Writer, int, bool))
    requires WriterOk(w)
    ensures WriterOk(r.0)
  {
    if w.closing.shutdown != Open then (w, -1, false)
    else if |data| < w.wnum then (w.(wnum := 0), -1, false)
    else AppLoop(w.(wnum := 0), e, data, id, w.wnum, inEarly && w.canEarly)
  }

  /** What ssl_send_alert_impl may be asked to send. */
  predicate MayAlert(level: byte, desc: byte) {
    (level == WARNING && desc == CLOSE_NOTIFY) || (level == FATAL && desc != CLOSE_NOTIFY)
  }

  /** ssl_send_alert_impl: the alert goes out now if nothing is being written. */
  function SendAlert(w: Writer, e: Env, level: byte, desc: byte): (r: (Writer, int))
    requires WriterOk(w) && MayAlert(level, desc)
    ensures WriterOk(r.0)
  {
    if w.closing.shutdown != Open then (w, -1)
    else
      var w1 := w.(closing := Closing(if level == WARNING then CloseSent else ErrorSent, true, level, desc));
      if w.buf.size > 0 then (w1, -1) else DispatchAlert(w1, e)
  }

  const ALERT_ID := 0

  /** tls_dispatch_alert; after a fatal alert the transport is flushed, whatever
      comes of it. */
  function DispatchAlert(w: Writer, e: Env): (r: (Writer, int))
    requires WriterOk(w)
    ensures WriterOk(r.0)
  {
    match DoWrite(w, e, ALERT, [w.closing.level, w.closing.desc], ALERT_ID)
    case (w1, r1) => if r1 <= 0 then (w1, r1) else (Dispatched(w1), 1)
  }

  function Dispatched(w: Writer): (w': Writer)
    requires WriterOk(w)
    ensures WriterOk(w')
  {
    w.(closing := w.closing.(dispatch := false), calls := if w.closing.level == FATAL then w.calls + 1 else w.calls)
  }

  /** tls_set_write_state. */
  function SetWriteState(w: Writer, e: Env, overhead: nat, prefix: nat): (r: (Writer, bool))
    requires WriterOk(w)
    ensures WriterOk(r.0)
  {
    match FlushHs(w, e)
    case (w1, false) => (w1, false)
    case (w1, true) => (w1.(aead := Aead(false, overhead, prefix)), true)
  }
}
