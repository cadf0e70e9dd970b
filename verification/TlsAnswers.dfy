/** What each operation of a TLS writer answers, and what it has done by then:
    told by the transport's answers and by the sealing, not by the operations. */
module TlsAnswers {
  import opened Bytes
  import opened TlsBuffer
  import opened TlsWriter
  import opened TlsStream

  // ---------- The transport ----------

  /** The transport turned nothing away from call lo up to call hi. */
  predicate AllTaken(e: Env, lo: nat, hi: nat) {
    forall k: nat | lo <= k < hi :: e.answer(k) > 0
  }

  ghost predicate Willing(e: Env) { forall k: nat :: e.answer(k) > 0 }

  /** Writing went on until the transport turned something away, if it did: r is
      1, or the last answer. */
  predicate Answered(e: Env, lo: nat, hi: nat, r: int) {
    && lo <= hi
    && (r == 1 || r <= 0)
    && (r == 1 ==> AllTaken(e, lo, hi))
    && (r <= 0 ==> lo < hi && r == e.answer(hi - 1))
  }

  lemma {:induction false} FlushBufAnswer(w: Writer, e: Env)
    requires WriterOk(w) && Roomy(w.buf)
    ensures var (w', r) := FlushBuf(w, e);
            && w' == w.(buf := w'.buf, calls := w'.calls, wire := w'.wire)
            && Answered(e, w.calls, w'.calls, r) && Roomy(w'.buf)
            && w'.wire + Contents(w'.buf) == w.wire + Contents(w.buf)
            && (r == 1 <==> w'.buf.size == 0)
    decreases w.buf.size
  {
    hide WriteSome;
    if w.buf.size == 0 {
      EmptyContents(w.buf);
      EmptyContents(Cleared(w.buf));
    } else {
      WriteSomeAnswer(w, e);
      match WriteSome(w, e) {
        case (w1, n) => if n > 0 { FlushBufAnswer(w1, e); }
      }
    }
  }

  lemma WriteSomeAnswer(w: Writer, e: Env)
    requires WriterOk(w) && Roomy(w.buf) && w.buf.size > 0
    ensures var (w', r) := WriteSome(w, e);
            && w' == w.(buf := w'.buf, calls := w.calls + 1, wire := w'.wire) && Roomy(w'.buf)
            && (r > 0 <==> e.answer(w.calls) > 0) && (r <= 0 ==> r == e.answer(w.calls) && w'.buf == w.buf)
            && w'.wire + Contents(w'.buf) == w.wire + Contents(w.buf)
  {
    var n := Answer(w, e, w.buf.size);
    if n > 0 {
      ConsumedDrops(w.buf, n);
      RoomyKept(w.buf, 0, 0, e.alloc(0), n);
      var s := Contents(w.buf);
      hide Contents, Consumed, Roomy, BufOk;
      assert w.wire + s[..n] + s[n..] == w.wire + s;
    }
  }

  lemma {:induction false} WriteFlightAnswer(w: Writer, e: Env)
    requires WriterOk(w)
    ensures var (w', r) := WriteFlight(w, e);
            && w' == w.(off := w'.off, calls := w'.calls, wire := w'.wire)
            && Answered(e, w.calls, w'.calls, r)
            && w'.wire + FlightBytes(w)[w'.off..] == w.wire + FlightBytes(w)[w.off..]
            && (r == 1 <==> w'.off == |FlightBytes(w)|)
    decreases |FlightBytes(w)| - w.off
  {
    hide WriteFlightSome;
    if w.off < |FlightBytes(w)| {
      WriteFlightSomeAnswer(w, e);
      match WriteFlightSome(w, e) {
        case (w1, n) => if n > 0 { WriteFlightAnswer(w1, e); }
      }
    }
  }

  lemma WriteFlightSomeAnswer(w: Writer, e: Env)
    requires WriterOk(w) && w.off < |FlightBytes(w)|
    ensures var (w', r) := WriteFlightSome(w, e);
            && w' == w.(off := w'.off, calls := w.calls + 1, wire := w'.wire) && w'.off <= |FlightBytes(w)|
            && (r > 0 <==> e.answer(w.calls) > 0) && (r <= 0 ==> r == e.answer(w.calls) && w'.off == w.off)
            && w'.wire + FlightBytes(w)[w'.off..] == w.wire + FlightBytes(w)[w.off..]
  {
    var n := Answer(w, e, |FlightBytes(w)| - w.off);
    if n > 0 {
      var s := FlightBytes(w)[w.off..];
      assert FlightBytes(w)[w.off + n..] == s[n..];
      hide FlightBytes;
      assert w.wire + s[..n] + s[n..] == w.wire + s;
    }
  }

  // ---------- Sealing ----------

  /** A record can be sealed into room bytes. */
  predicate Seals(w: Writer, e: Env, typ: byte, plain: bytes, room: nat) {
    && e.seal(|w.sealed|, typ, plain).Some?
    && |e.seal(|w.sealed|, typ, plain).value| <= room
  }

  /** A record was sealed, and its bytes are behind the flight. */
  predicate InFlight(w: Writer, w': Writer, e: Env, typ: byte, plain: bytes) {
    && Seals(w, e, typ, plain, |plain| + w.aead.overhead)
    && var wire := e.seal(|w.sealed|, typ, plain).value;
       w' == w.(flight := Some(FlightBytes(w) + wire), sealed := w.sealed + [Sealing(typ, plain, wire)])
  }

  lemma AddRecordAnswer(w: Writer, e: Env, typ: byte, plain: bytes)
    requires WriterOk(w)
    ensures var (w', ok) := AddRecord(w, e, typ, plain);
            && (ok <==> Seals(w, e, typ, plain, |plain| + w.aead.overhead))
            && (ok ==> InFlight(w, w', e, typ, plain))
            && (!ok ==> w' == w.(flight := Some(FlightBytes(w)), failed := true))
  {}

  /** The pending handshake bytes can be sealed. */
  predicate HsSeals(w: Writer, e: Env) {
    w.hs == [] || Seals(w, e, 22, w.hs, |w.hs| + w.aead.overhead)
  }

  /** What they become on the wire. */
  function HsWire(w: Writer, e: Env): bytes
    requires HsSeals(w, e)
  {
    if w.hs == [] then [] else e.seal(|w.sealed|, 22, w.hs).value
  }

  lemma FlushHsAnswer(w: Writer, e: Env)
    requires WriterOk(w)
    ensures var (w', ok) := FlushHs(w, e);
            && (ok <==> HsSeals(w, e))
            && (w.hs == [] ==> w' == w)
            && (w.hs != [] && ok ==> InFlight(w.(hs := []), w', e, 22, w.hs))
            && (!ok ==> w' == w.(hs := [], flight := Some(FlightBytes(w)), failed := true))
            && (ok ==> FlightBytes(w') == FlightBytes(w) + HsWire(w, e) && w'.off == w.off && w'.hs == [])
  {
    if w.hs != [] { AddRecordAnswer(w.(hs := []), e, HANDSHAKE, w.hs); }
  }

  // ---------- tls_flush_flight ----------

  /** There is something to flush. */
  predicate HasFlight(w: Writer) { w.flight.Some? || w.hs != [] }

  /** What tls_flush_flight has to send: the write buffer first, then what is left
      of the flight, then the handshake bytes that were still pending. */
  function ToSend(w: Writer, e: Env): bytes
    requires WriterOk(w) && HsSeals(w, e)
  {
    Contents(w.buf) + FlightBytes(w)[w.off..] + HsWire(w, e)
  }

  predicate MayFlush(w: Writer, e: Env)
    requires HsSeals(w, e)
  {
    w.closing.shutdown.Open? && |FlightBytes(w)| + |HsWire(w, e)| <= 0x7fff_ffff
  }

  /** The three answers that are no matter of the transport: pending bytes that
      cannot be sealed; nothing to flush; and a writer that was shut down, or a
      flight that no int holds.  Nothing is written in any of them. */
  lemma FlushWithoutWriting(w: Writer, e: Env)
    requires WriterOk(w)
    ensures var (w', r) := FlushFlight(w, e);
            && (!HsSeals(w, e) ==> r == -1)
            && (!HasFlight(w) ==> r == 1 && w' == w)
            && (HsSeals(w, e) && HasFlight(w) && !MayFlush(w, e) ==> r == -1 && w' == FlushHs(w, e).0)
            && (!HsSeals(w, e) || !HasFlight(w) || !MayFlush(w, e) ==>
                  w'.wire == w.wire && w'.calls == w.calls && w'.buf == w.buf && w'.off == w.off)
  {
    FlushHsAnswer(w, e);
    hide FlushHs, FlushBuf, FinishFlight;
  }

  /** What was turned away last: a write, or the flush after everything was
      written. */
  function Refusal(w: Writer, e: Env): int
    requires w.calls > 0
  {
    if w.buf.size == 0 && w.off == |FlightBytes(w)| then -1 else e.answer(w.calls - 1)
  }

  /** In every other case the answer is the transport's: 1 if it turned nothing
      away, and then everything there was to send is on the wire, in order, and
      nothing is left; otherwise what it took is on the wire and the rest is where
      it was, and the answer is its own, or -1 if only its flush was refused. */
  lemma FlushWrites(w: Writer, e: Env)
    requires WriterOk(w) && Roomy(w.buf) && HsSeals(w, e) && HasFlight(w) && MayFlush(w, e)
    ensures var (w', r) := FlushFlight(w, e);
            && w.calls < w'.calls && (r == 1 || r <= 0)
            && (r == 1 <==> AllTaken(e, w.calls, w'.calls))
            && (r == 1 ==> w'.flight.None? && w'.off == 0 && w'.hs == [] && w'.buf.size == 0
                           && w'.wire == w.wire + ToSend(w, e))
            && (r <= 0 ==> w'.flight.Some? && w'.hs == [] && r == Refusal(w', e)
                           && w'.wire + Contents(w'.buf) + FlightBytes(w')[w'.off..] == w.wire + ToSend(w, e))
  {
    hide FlushFlight, FlushHs, FlushBuf, FinishFlight, Seals, InFlight, Contents;
    HsKeeps(w, e);
    var w1 := FlushHs(w, e).0;
    FlushParts(w, e);
    Sent(w1, e);
    Regroup(w.wire, Contents(w.buf), FlightBytes(w)[w.off..], HsWire(w, e));
  }

  /** The part of tls_flush_flight that writes. */
  function Send(w: Writer, e: Env): (r: (Writer, int))
    requires WriterOk(w)
  {
    match if w.buf.size > 0 then FlushBuf(w, e) else (w, 1)
    case (w1, r1) => if r1 <= 0 then (w1, r1) else FinishFlight(w1, e)
  }

  lemma FlushParts(w: Writer, e: Env)
    requires WriterOk(w) && HsSeals(w, e) && HasFlight(w) && MayFlush(w, e)
    ensures FlushFlight(w, e) == Send(FlushHs(w, e).0, e)
  {
    HsKeeps(w, e);
    hide FlushHs, FlushBuf, FinishFlight;
  }

  lemma Sent(w: Writer, e: Env)
    requires WriterOk(w) && Roomy(w.buf) && w.flight.Some?
    ensures var (w', r) := Send(w, e);
            && w' == w.(flight := w'.flight, off := w'.off, calls := w'.calls, wire := w'.wire, buf := w'.buf)
            && WriterOk(w') && w.calls < w'.calls && (r == 1 || r <= 0)
            && (r == 1 <==> AllTaken(e, w.calls, w'.calls))
            && (r == 1 ==> w'.flight.None? && w'.off == 0 && w'.buf.size == 0
                           && w'.wire == w.wire + (Contents(w.buf) + FlightBytes(w)[w.off..]))
            && (r <= 0 ==> w'.flight == w.flight && r == Refusal(w', e) && w'.wire + Contents(w'.buf) + FlightBytes(w')[w'.off..]
                                                    == w.wire + (Contents(w.buf) + FlightBytes(w)[w.off..]))
  {
    hide FlushBuf, FinishFlight, Contents;
    FlushBufAnswer(w, e);
    if w.buf.size == 0 { EmptyContents(w.buf); }
    var (w1, r1) := if w.buf.size > 0 then FlushBuf(w, e) else (w, 1);
    assert w1.wire + Contents(w1.buf) == w.wire + Contents(w.buf);
    assert AllTaken(e, w.calls, w1.calls) <==> r1 == 1;
    Assoc(w.wire, Contents(w.buf), FlightBytes(w)[w.off..]);
    if r1 == 1 {
      EmptyContents(w1.buf);
      assert w1.wire == w.wire + Contents(w.buf);
      FinishFlightAnswer(w1, e);
      var (w2, r2) := FinishFlight(w1, e);
      TakenThen(e, w.calls, w1.calls, w2.calls);
      assert w2.buf == w1.buf && w2.wire + Contents(w2.buf) == w2.wire;
    }
  }

  lemma TakenThen(e: Env, lo: nat, mid: nat, hi: nat)
    requires lo <= mid <= hi && AllTaken(e, lo, mid)
    ensures AllTaken(e, lo, hi) <==> AllTaken(e, mid, hi)
  {}

  lemma Assoc(a: bytes, b: bytes, c: bytes)
    ensures a + b + c == a + (b + c)
  {}

  lemma HsKeeps(w: Writer, e: Env)
    requires WriterOk(w)
    ensures var w' := FlushHs(w, e).0;
            && w' == w.(hs := [], flight := w'.flight, sealed := w'.sealed, failed := w'.failed)
            && (HasFlight(w) ==> w'.flight.Some?)
            && (HsSeals(w, e) ==> FlightBytes(w')[w'.off..] == FlightBytes(w)[w.off..] + HsWire(w, e)
                                  && |FlightBytes(w')| == |FlightBytes(w)| + |HsWire(w, e)|)
  {
    FlushHsAnswer(w, e);
  }

  lemma Regroup(a: bytes, b: bytes, c: bytes, d: bytes)
    ensures a + b + (c + d) == a + (b + c + d)
  {}

  lemma FinishFlightAnswer(w: Writer, e: Env)
    requires WriterOk(w) && w.flight.Some?
    ensures var (w', r) := FinishFlight(w, e);
            && w' == w.(flight := w'.flight, off := w'.off, calls := w'.calls, wire := w'.wire)
            && w.calls < w'.calls && (r == 1 || r <= 0)
            && (r == 1 <==> AllTaken(e, w.calls, w'.calls))
            && (r == 1 ==> w'.flight.None? && w'.off == 0 && w'.wire == w.wire + FlightBytes(w)[w.off..])
            && (r <= 0 ==> w'.flight == w.flight && w'.wire + FlightBytes(w)[w'.off..] == w.wire + FlightBytes(w)[w.off..]
                           && r == if w'.off == |FlightBytes(w)| then -1 else e.answer(w'.calls - 1))
  {
    hide WriteFlight;
    WriteFlightAnswer(w, e);
    var (w1, r1) := WriteFlight(w, e);
    if r1 == 1 {
      var w' := FinishFlight(w, e).0;
      assert w'.calls == w1.calls + 1;
      assert FlightBytes(w)[w1.off..] == [];
    }
  }

  /** A transport that is willing gets everything: one flush empties the writer. */
  lemma FlushSucceeds(w: Writer, e: Env)
    requires WriterOk(w) && Roomy(w.buf) && HsSeals(w, e) && HasFlight(w) && MayFlush(w, e) && Willing(e)
    ensures var (w', r) := FlushFlight(w, e);
            && r == 1 && w'.wire == w.wire + ToSend(w, e)
            && w'.flight.None? && w'.off == 0 && w'.hs == [] && w'.buf.size == 0
  {
    hide FlushFlight;
    FlushWrites(w, e);
  }

  // ---------- tls_write_pending ----------

  /** The caller offers less than before, another buffer without leave to move it,
      or another type. */
  predicate BadRetry(p: Pending, e: Env, typ: byte, len: nat, id: nat) {
    len < p.tot || (p.buf != id && !e.movingBuffer) || typ != p.typ
  }

  /** Either all of out has gone to the transport and the record is done, or the
      rest is in the write buffer and the record is still pending. */
  predicate Went(w: Writer, w': Writer, e: Env, out: bytes, p: Pending, r: int)
    requires WriterOk(w')
  {
    && w.calls <= w'.calls
    && (AllTaken(e, w.calls, w'.calls) ==>
          r == p.tot && w'.pend.None? && w'.buf.size == 0 && w'.wire == w.wire + out)
    && (!AllTaken(e, w.calls, w'.calls) ==>
          r <= 0 && w'.pend == Some(p) && w'.buf.size > 0 && w'.wire + Contents(w'.buf) == w.wire + out)
  }

  lemma WritePendingAnswer(w: Writer, e: Env, typ: byte, len: nat, id: nat)
    requires WriterOk(w) && Roomy(w.buf) && w.pend.Some?
    ensures var (w', r) := WritePending(w, e, typ, len, id);
            if BadRetry(w.pend.value, e, typ, len, id) then r == -1 && w' == w
            else
              && w' == w.(buf := w'.buf, calls := w'.calls, wire := w'.wire, pend := w'.pend) && Roomy(w'.buf)
              && Went(w, w', e, Contents(w.buf), w.pend.value, r)
  {
    hide FlushBuf, Contents;
    FlushBufAnswer(w, e);
    var (w1, r1) := FlushBuf(w, e);
    if r1 == 1 { EmptyContents(w1.buf); }
    assert w1.buf.size == 0 ==> w1.wire == w.wire + Contents(w.buf);
  }

  // ---------- do_tls_write ----------

  /** How many bytes of the flight are still to be sent, the pending ones sealed. */
  function Left(w: Writer, e: Env): nat
    requires WriterOk(w) && HsSeals(w, e)
  {
    |FlightBytes(w)| - w.off + |HsWire(w, e)|
  }

  /** No record is begun: one is too long or in the way, the pending bytes cannot
      be sealed, there is nothing to send, or too much of it. */
  lemma WriteWithoutWriting(w: Writer, e: Env, typ: byte, plain: bytes, id: nat)
    requires WriterOk(w) && w.pend.None?
    ensures var (w', r) := DoWrite(w, e, typ, plain, id);
            && (|plain| > 16384 || w.buf.size > 0 ==> r == -1 && w' == w)
            && (|plain| <= 16384 && w.buf.size == 0 && !HsSeals(w, e) ==> r == -1 && w' == FlushHs(w, e).0)
            && (|plain| <= 16384 && w.buf.size == 0 && HsSeals(w, e) ==>
                  && (plain == [] && Left(w, e) == 0 ==> r == 0 && w' == FlushHs(w, e).0)
                  && (plain != [] && Left(w, e) + |plain| + w.aead.overhead >= 0x1_0000 ==>
                        r == -1 && w'.wire == w.wire && w'.buf == w.buf && w'.pend.None?))
  {
    FlushHsAnswer(w, e);
    HsKeeps(w, e);
    hide FlushHs, Seals, InFlight;
  }

  /** The sealings a call adds: the pending handshake bytes, then the record. */
  function NewSealings(w: Writer, e: Env, typ: byte, plain: bytes): seq<Sealing>
    requires HsSeals(w, e)
  {
    var hs := if w.hs == [] then [] else [Sealing(22, w.hs, HsWire(w, e))];
    var n := |w.sealed| + |hs|;
    hs + if plain == [] || e.seal(n, typ, plain).None? then [] else [Sealing(typ, plain, e.seal(n, typ, plain).value)]
  }

  /** A record of plain can be begun and sealed. */
  predicate CanWrite(w: Writer, e: Env, typ: byte, plain: bytes)
    requires WriterOk(w)
  {
    && w.pend.None? && w.buf.size == 0 && |plain| <= 16384 && HsSeals(w, e)
    && (plain == [] ==> 1 <= Left(w, e) <= MODEST)
    && (plain != [] ==>
          && Left(w, e) + |plain| + w.aead.overhead <= MODEST
          && Seals(FlushHs(w, e).0, e, typ, plain, |plain| + w.aead.overhead))
  }

  /** What goes to the transport: the rest of the flight, the pending handshake
      bytes, the record. */
  function Out(w: Writer, e: Env, typ: byte, plain: bytes): bytes
    requires WriterOk(w) && CanWrite(w, e, typ, plain)
  {
    FlightBytes(w)[w.off..] + HsWire(w, e)
    + if plain == [] then [] else e.seal(|FlushHs(w, e).0.sealed|, typ, plain).value
  }

  lemma WriteWrites(w: Writer, e: Env, typ: byte, plain: bytes, id: nat)
    requires WriterOk(w) && Roomy(w.buf) && CanWrite(w, e, typ, plain)
    ensures var (w', r) := DoWrite(w, e, typ, plain, id);
            && Went(w, w', e, Out(w, e, typ, plain), Pending(|plain|, id, typ), r)
            && w'.flight.None? && w'.off == 0 && w'.hs == [] && Roomy(w'.buf)
            && w'.sealed == w.sealed + NewSealings(w, e, typ, plain)
            && w'.closing == w.closing && w'.wnum == w.wnum && w'.aead == w.aead
            && w'.canEarly == w.canEarly && w'.earlyWritten == w.earlyWritten && w'.failed == w.failed
  {
    hide FlushHs, WriteNew, Went, Contents, Roomy;
    HsKeeps(w, e);
    HsSealing(w, e);
    SameRecord(w, e, typ, plain);
    var w1 := FlushHs(w, e).0;
    NewRecordWrites(w1, e, typ, plain, id);
    SameWent(w, w1, WriteNew(w1, e, typ, plain, id).0, e, Out(w, e, typ, plain), Pending(|plain|, id, typ), WriteNew(w1, e, typ, plain, id).1);
  }

  /** With the handshake bytes sealed, the record is as it was. */
  lemma SameRecord(w: Writer, e: Env, typ: byte, plain: bytes)
    requires WriterOk(w) && Roomy(w.buf) && CanWrite(w, e, typ, plain)
    ensures var w1 := FlushHs(w, e).0;
            && Roomy(w1.buf) && w1.buf.size == 0 && CanWrite(w1, e, typ, plain)
            && Out(w1, e, typ, plain) == Out(w, e, typ, plain)
            && w1.sealed + NewSealings(w1, e, typ, plain) == w.sealed + NewSealings(w, e, typ, plain)
  {
    HsKeeps(w, e);
    HsSealing(w, e);
    FlushHsAnswer(w, e);
    var w1 := FlushHs(w, e).0;
    assert FlushHs(w1, e) == (w1, true);
    hide FlushHs, InFlight;
    assert FlightBytes(w1)[w1.off..] + [] == FlightBytes(w)[w.off..] + HsWire(w, e);
  }

  lemma SameWent(w: Writer, w1: Writer, w': Writer, e: Env, out: bytes, p: Pending, r: int)
    requires WriterOk(w') && Went(w1, w', e, out, p, r) && w1.calls == w.calls && w1.wire == w.wire
    ensures Went(w, w', e, out, p, r)
  {}

  lemma HsSealing(w: Writer, e: Env)
    requires WriterOk(w) && HsSeals(w, e)
    ensures FlushHs(w, e).1
    ensures FlushHs(w, e).0.sealed == w.sealed + (if w.hs == [] then [] else [Sealing(22, w.hs, HsWire(w, e))])
    ensures FlushHs(w, e).0.failed == w.failed
  {
    FlushHsAnswer(w, e);
  }

  lemma NewRecordWrites(w: Writer, e: Env, typ: byte, plain: bytes, id: nat)
    requires WriterOk(w) && Roomy(w.buf) && w.hs == [] && CanWrite(w, e, typ, plain)
    ensures var (w', r) := WriteNew(w, e, typ, plain, id);
            && Went(w, w', e, Out(w, e, typ, plain), Pending(|plain|, id, typ), r)
            && w'.flight.None? && w'.off == 0 && w'.hs == [] && Roomy(w'.buf)
            && w'.sealed == w.sealed + NewSealings(w, e, typ, plain)
            && w'.closing == w.closing && w'.wnum == w.wnum && w'.aead == w.aead
            && w'.canEarly == w.canEarly && w'.earlyWritten == w.earlyWritten && w'.failed == w.failed
  {
    hide Went, Contents, Fill, WritePending, Roomy;
    FillAnswer(w, e, typ, plain);
    var w2 := Fill(w, e, typ, plain).0;
    var w3 := w2.(pend := Some(Pending(|plain|, id, typ)));
    WritePendingAnswer(w3, e, typ, |plain|, id);
    SameWent(w, w3, WritePending(w3, e, typ, |plain|, id).0, e, Out(w, e, typ, plain), Pending(|plain|, id, typ),
             WritePending(w3, e, typ, |plain|, id).1);
  }

  lemma FillAnswer(w: Writer, e: Env, typ: byte, plain: bytes)
    requires WriterOk(w) && Roomy(w.buf) && w.hs == [] && CanWrite(w, e, typ, plain)
    ensures var (w', ok) := Fill(w, e, typ, plain);
            && ok && Contents(w'.buf) == Out(w, e, typ, plain) && Roomy(w'.buf)
            && w' == w.(buf := w'.buf, asked := w'.asked, flight := None, off := 0, sealed := w'.sealed)
            && w'.sealed == w.sealed + NewSealings(w, e, typ, plain)
  {
    hide *;
    RecordIs(w, e, typ, plain);
    if plain == [] { FillFlight(w, e, typ); } else { FillRecord(w, e, typ, plain); }
  }

  lemma RecordIs(w: Writer, e: Env, typ: byte, plain: bytes)
    requires WriterOk(w) && w.hs == [] && CanWrite(w, e, typ, plain)
    ensures w.buf.size == 0
    ensures plain == [] ==>
              && |FlightBytes(w)| - w.off <= MODEST
              && Out(w, e, typ, plain) == FlightBytes(w)[w.off..] && w.sealed + NewSealings(w, e, typ, plain) == w.sealed
    ensures plain != [] ==>
              && |FlightBytes(w)| - w.off + |plain| + w.aead.overhead <= MODEST
              && Seals(w, e, typ, plain, |plain| + w.aead.overhead)
              && var wire := e.seal(|w.sealed|, typ, plain).value;
              && Out(w, e, typ, plain) == FlightBytes(w)[w.off..] + wire
              && w.sealed + NewSealings(w, e, typ, plain) == w.sealed + [Sealing(typ, plain, wire)]
  {
    assert FlushHs(w, e).0 == w;
    hide FlushHs;
    assert FlightBytes(w)[w.off..] + [] == FlightBytes(w)[w.off..];
  }

  lemma FillFlight(w: Writer, e: Env, typ: byte)
    requires WriterOk(w) && Roomy(w.buf) && w.buf.size == 0 && |FlightBytes(w)| - w.off <= MODEST
    ensures var (w', ok) := Fill(w, e, typ, []);
            && ok && Contents(w'.buf) == FlightBytes(w)[w.off..] && Roomy(w'.buf)
            && w' == w.(buf := w'.buf, asked := w'.asked, flight := None, off := 0)
  {
    MoveAnswer(w, e, MaxOut(w, []));
    hide MoveFlight, Contents;
  }

  lemma FillRecord(w: Writer, e: Env, typ: byte, plain: bytes)
    requires WriterOk(w) && Roomy(w.buf) && w.buf.size == 0 && plain != []
    requires |FlightBytes(w)| - w.off + |plain| + w.aead.overhead <= MODEST
    requires Seals(w, e, typ, plain, |plain| + w.aead.overhead)
    ensures var (w', ok) := Fill(w, e, typ, plain);
            var wire := e.seal(|w.sealed|, typ, plain).value;
            && ok && Contents(w'.buf) == FlightBytes(w)[w.off..] + wire && Roomy(w'.buf)
            && w' == w.(buf := w'.buf, asked := w'.asked, flight := None, off := 0, sealed := w.sealed + [Sealing(typ, plain, wire)])
  {
    MoveAnswer(w, e, MaxOut(w, plain));
    var w1 := MoveFlight(w, e, MaxOut(w, plain)).0;
    assert w1.buf.size == |FlightBytes(w)| - w.off;
    hide MoveFlight, Contents, SealIntoBuf;
    SealInto(w1, e, typ, plain);
  }

  lemma MoveAnswer(w: Writer, e: Env, n: nat)
    requires WriterOk(w) && Roomy(w.buf) && w.buf.size == 0 && |FlightBytes(w)| - w.off <= n <= MODEST
    ensures var (w', ok) := MoveFlight(w, e, n);
            && ok && w' == w.(buf := w'.buf, asked := w'.asked, flight := None, off := 0)
            && Contents(w'.buf) == FlightBytes(w)[w.off..] && Roomy(w'.buf) && w'.buf.cap >= n
  {
    var headerLen := |FlightBytes(w)| - w.off + w.aead.prefix;
    GrownKeeps(w.buf, headerLen, n, e.alloc(w.calls));
    RoomyKept(w.buf, headerLen, n, e.alloc(w.calls), 0);
    EmptyContents(w.buf);
    hide Grown, Contents;
    var w1 := Enlarge(w, e, n).0;
    if w.flight.Some? { AppendedAdds(w1.buf, w.flight.value[w.off..]); }
  }

  /** The body of the record that follows the flight comes to lie where the cipher
      likes it: at an address that is a multiple of eight. */
  lemma BodyAligned(w: Writer, e: Env, n: nat)
    requires WriterOk(w) && w.buf.cap < n < 0x1_0000 && n > 5
    ensures var (w', ok) := Enlarge(w, e, n);
            && ok && w'.buf.at.Heap?
            && (e.alloc(w.calls).addr + w'.buf.offset + (|FlightBytes(w)| - w.off) + w.aead.prefix) % 8 == 0
            && w'.asked >= n && w'.asked >= w.asked && (w'.asked == n || w'.asked == w.asked)
  {
    hide Written, Filled, Contents;
  }

  lemma SealInto(w: Writer, e: Env, typ: byte, plain: bytes)
    requires WriterOk(w) && Roomy(w.buf) && Seals(w, e, typ, plain, w.buf.cap - w.buf.size)
    ensures var (w', ok) := SealIntoBuf(w, e, typ, plain);
            var wire := e.seal(|w.sealed|, typ, plain).value;
            && ok && w' == w.(buf := w'.buf, sealed := w.sealed + [Sealing(typ, plain, wire)])
            && Contents(w'.buf) == Contents(w.buf) + wire && Roomy(w'.buf)
  {
    AppendedAdds(w.buf, e.seal(|w.sealed|, typ, plain).value);
  }

  // ---------- Handshake messages, ChangeCipherSpec and keys ----------

  /** Nothing but sealing can fail in what follows. */
  predicate Honest(w: Writer, w': Writer, ok: bool) {
    !w.failed ==> (ok <==> !w'.failed)
  }

  /** From the n-th on, every handshake record but the last, or with the last, is
      exactly as long as max_send_fragment allows. */
  predicate FullFrom(w: Writer, n: nat, e: Env, last: bool) {
    forall i | n <= i < |w.sealed| ::
      w.sealed[i].typ == 22 && (last || i < |w.sealed| - 1 ==> |w.sealed[i].plain| == e.maxFragment)
  }

  /** Under the null cipher a message is sealed at once, in as few records as
      possible, and what was pending stays so. */
  lemma {:induction false} ChunksAnswer(w: Writer, e: Env, rest: bytes)
    requires WriterOk(w) && EnvOk(e)
    ensures var (w', ok) := AddChunks(w, e, rest);
            && Honest(w, w', ok) && w.sealed <= w'.sealed && FullFrom(w', |w.sealed|, e, false)
            && w' == w.(flight := w'.flight, sealed := w'.sealed, failed := w'.failed)
            && (ok && rest != [] ==> |w.sealed| < |w'.sealed|)
    decreases |rest|
  {
    hide AddRecord, Seals;
    if rest != [] {
      var n := Min(|rest|, e.maxFragment);
      AddRecordAnswer(w, e, HANDSHAKE, rest[..n]);
      match AddRecord(w, e, HANDSHAKE, rest[..n]) {
        case (w1, ok) =>
          if ok {
            ChunksAnswer(w1, e, rest[n..]);
            assert w1.sealed[..|w.sealed|] == w.sealed;
          }
      }
    }
  }

  /** Otherwise it is packed behind what is pending: only full records are sealed,
      and what is pending never is more than one. */
  lemma {:induction false} PackAnswer(w: Writer, e: Env, rest: bytes)
    requires WriterOk(w) && EnvOk(e) && |w.hs| <= e.maxFragment
    ensures var (w', ok) := Pack(w, e, rest);
            && Honest(w, w', ok) && w.sealed <= w'.sealed && FullFrom(w', |w.sealed|, e, true)
            && |w'.hs| <= e.maxFragment
            && w' == w.(hs := w'.hs, flight := w'.flight, sealed := w'.sealed, failed := w'.failed)
            && (ok && rest != [] ==> w'.hs != [])
    decreases |rest|
  {
    hide MakeRoom;
    if rest != [] {
      RoomAnswer(w, e);
      match MakeRoom(w, e) {
        case (w1, ok) =>
          if ok {
            var n := Min(|rest|, e.maxFragment - |w1.hs|);
            PackAnswer(w1.(hs := w1.hs + rest[..n]), e, rest[n..]);
            assert w1.sealed[..|w.sealed|] == w.sealed;
          }
      }
    }
  }

  lemma RoomAnswer(w: Writer, e: Env)
    requires WriterOk(w) && EnvOk(e) && |w.hs| <= e.maxFragment
    ensures var (w', ok) := MakeRoom(w, e);
            && Honest(w, w', ok) && w.sealed <= w'.sealed && FullFrom(w', |w.sealed|, e, true)
            && w' == w.(hs := w'.hs, flight := w'.flight, sealed := w'.sealed, failed := w'.failed)
            && (w'.hs == [] || w'.hs == w.hs)
  {
    FlushHsAnswer(w, e);
    hide FlushHs, Seals;
  }

  lemma MessageAnswer(w: Writer, e: Env, msg: bytes)
    requires WriterOk(w) && EnvOk(e)
    ensures w.aead.nullCipher ==> AddMessage(w, e, msg) == AddChunks(w, e, msg)
    ensures !w.aead.nullCipher ==> AddMessage(w, e, msg) == Pack(w, e, msg)
  {
    hide AddChunks, Pack;
  }

  /** The record of the ChangeCipherSpec is [1], behind everything pending. */
  lemma CcsAnswer(w: Writer, e: Env)
    requires WriterOk(w)
    ensures var (w', ok) := AddChangeCipherSpec(w, e);
            && Honest(w, w', ok)
            && (ok ==> HsSeals(w, e) && |w'.sealed| == |FlushHs(w, e).0.sealed| + 1 && FlushHs(w, e).0.sealed <= w'.sealed
                       && Last(w'.sealed).typ == 20 && Last(w'.sealed).plain == [1])
            && w' == w.(hs := [], flight := w'.flight, sealed := w'.sealed, failed := w'.failed)
  {
    FlushHsAnswer(w, e);
    var (w1, ok) := FlushHs(w, e);
    AddRecordAnswer(w1, e, 20, [1]);
    hide FlushHs, AddRecord, Seals, HsWire;
  }

  function Last(ss: seq<Sealing>): Sealing
    requires ss != []
  {
    ss[|ss| - 1]
  }

  /** New keys are in place if and only if what was pending could be sealed under
      the old ones. */
  lemma KeysAnswer(w: Writer, e: Env, overhead: nat, prefix: nat)
    requires WriterOk(w)
    ensures var (w', ok) := SetWriteState(w, e, overhead, prefix);
            && (ok <==> HsSeals(w, e)) && w'.hs == []
            && w'.aead == (if ok then Aead(false, overhead, prefix) else w.aead)
            && w' == FlushHs(w, e).0.(aead := w'.aead)
  {
    FlushHsAnswer(w, e);
    HsKeeps(w, e);
    hide FlushHs, Seals;
  }

  // ---------- Alerts ----------

  /** What a write changes. */
  lemma DoWriteKeeps(w: Writer, e: Env, typ: byte, plain: bytes, id: nat)
    requires WriterOk(w)
    ensures var w' := DoWrite(w, e, typ, plain, id).0;
            && w'.closing == w.closing && w'.wnum == w.wnum && w'.aead == w.aead
            && w'.canEarly == w.canEarly && w'.earlyWritten == w.earlyWritten
  {
    HsKeeps(w, e);
    hide FlushHs, Fill, FlushBuf, MaxOut;
    if w.pend.Some? {
      BufKeeps(w, e);
    } else if |plain| <= MAX_PLAIN && w.buf.size == 0 {
      var w1 := FlushHs(w, e).0;
      if MaxOut(w1, plain) > 0 {
        FillKeeps(w1, e, typ, plain);
        BufKeeps(Fill(w1, e, typ, plain).0.(pend := Some(Pending(|plain|, id, typ))), e);
      }
    }
  }

  lemma {:induction false} BufKeeps(w: Writer, e: Env)
    requires WriterOk(w)
    ensures var w' := FlushBuf(w, e).0; w' == w.(buf := w'.buf, calls := w'.calls, wire := w'.wire)
    decreases w.buf.size
  {
    if w.buf.size > 0 {
      match WriteSome(w, e) {
        case (w1, n) => if n > 0 { BufKeeps(w1, e); }
      }
    }
  }

  lemma FillKeeps(w: Writer, e: Env, typ: byte, plain: bytes)
    requires WriterOk(w) && w.buf.size == 0
    ensures var w' := Fill(w, e, typ, plain).0;
            w' == w.(buf := w'.buf, asked := w'.asked, flight := w'.flight, off := w'.off, sealed := w'.sealed, failed := w'.failed)
  {}

  /** A closing alert is sent once: a writer that was shut down refuses.  Otherwise
      it is shut down by it, and the alert is on its way, behind what is being
      written. */
  lemma SendAnswer(w: Writer, e: Env, level: byte, desc: byte)
    requires WriterOk(w) && MayAlert(level, desc)
    ensures var (w', r) := SendAlert(w, e, level, desc);
            && (!w.closing.shutdown.Open? ==> r == -1 && w' == w)
            && (w.closing.shutdown.Open? ==>
                  && w'.closing.shutdown == (if level == 1 && desc == 0 then CloseSent else ErrorSent)
                  && w'.closing.level == level && w'.closing.desc == desc
                  && var w1 := w.(closing := w'.closing.(dispatch := true));
                     if w.buf.size > 0 then r == -1 && w' == w1 else (w', r) == DispatchAlert(w1, e))
  {
    hide DoWrite;
    var w1 := w.(closing := Closing(if level == WARNING then CloseSent else ErrorSent, true, level, desc));
    DoWriteKeeps(w1, e, ALERT, [level, desc], ALERT_ID);
  }

  /** The transport took everything of an alert; a fatal one is followed by one
      call more, whose answer is not looked at. */
  predicate AlertTaken(w: Writer, w': Writer, e: Env) {
    if w.closing.level != 2 then AllTaken(e, w.calls, w'.calls)
    else w.calls < w'.calls && AllTaken(e, w.calls, w'.calls - 1)
  }

  /** The alert is a record of two bytes, level and description; it is no longer
      to be dispatched if and only if the transport took it all. */
  lemma AlertWrites(w: Writer, e: Env)
    requires WriterOk(w) && Roomy(w.buf) && w.closing.dispatch && CanWrite(w, e, 21, [w.closing.level, w.closing.desc])
    ensures var (w', r) := DispatchAlert(w, e);
            var alert := [w.closing.level, w.closing.desc];
            && w'.closing == w.closing.(dispatch := r != 1) && (r == 1 || r <= 0)
            && w'.sealed == w.sealed + NewSealings(w, e, 21, alert)
            && (r == 1 ==> AlertTaken(w, w', e) && w'.pend.None? && w'.buf.size == 0 && w'.wire == w.wire + Out(w, e, 21, alert))
            && (r != 1 ==> !AllTaken(e, w.calls, w'.calls) && w'.pend.Some? && w'.pend.value.typ == 21
                           && w'.wire + Contents(w'.buf) == w.wire + Out(w, e, 21, alert))
  {
    hide DoWrite, Contents;
    WriteWrites(w, e, 21, [w.closing.level, w.closing.desc], ALERT_ID);
  }

  /** An alert whose record is pending goes on where it stopped; any other pending
      record keeps it waiting. */
  lemma AlertResumes(w: Writer, e: Env)
    requires WriterOk(w) && Roomy(w.buf) && w.closing.dispatch && w.pend.Some?
    ensures var (w', r) := DispatchAlert(w, e);
            if BadRetry(w.pend.value, e, 21, 2, ALERT_ID) then r == -1 && w' == w
            else
              && w'.sealed == w.sealed && w'.closing == w.closing.(dispatch := w'.closing.dispatch)
              && (r == 1 ==> !w'.closing.dispatch && AlertTaken(w, w', e) && w'.pend.None? && w'.wire == w.wire + Contents(w.buf))
              && (r <= 0 && w.pend.value.tot > 0 ==> w'.closing.dispatch && !AllTaken(e, w.calls, w'.calls) && w'.pend == w.pend)
  {
    hide WritePending, Contents;
    WritePendingAnswer(w, e, 21, 2, ALERT_ID);
  }

  // ---------- Application data ----------

  /** Nothing is written: the writer was shut down, the caller offers less than it
      did, or no early data is allowed any more. */
  lemma AppRefused(w: Writer, e: Env, data: bytes, id: nat, inEarly: bool)
    requires WriterOk(w)
    ensures var r := WriteApp(w, e, data, id, inEarly);
            if !w.closing.shutdown.Open? then r == (w, -1, false)
            else if |data| < w.wnum then r == (w.(wnum := 0), -1, false)
            else inEarly && w.canEarly && e.maxEarly <= w.earlyWritten ==> r == (w.(canEarly := false), -1, true)
  {
    hide AppRound;
  }

  lemma {:induction false} LoopFlag(w: Writer, e: Env, data: bytes, id: nat, tot: nat, early: bool)
    requires WriterOk(w) && tot <= |data|
    ensures var (w', r, needs) := AppLoop(w, e, data, id, tot, early);
            && w'.closing == w.closing
            && (needs ==> r == -1 && early && e.maxEarly <= w'.earlyWritten && tot <= w'.wnum <= |data|)
            && w'.canEarly == (!needs && w.canEarly)
    decreases |data| - tot
  {
    hide DoWrite, RecordSize;
    if !(early && w.earlyWritten >= e.maxEarly) {
      DoWriteKeeps(w, e, APPLICATION_DATA, data[tot..tot + RecordSize(w, e, |data| - tot, early)], id + tot);
      match AppRound(w, e, data, id, tot, early) {
        case (w1, r1) => if r1 > 0 && r1 != |data| - tot { LoopFlag(w1, e, data, id, tot + r1, early); }
      }
    }
  }

  /** The handshake has to go on before more data can be written only if this call
      ran into the limit of early data; no more is written early then, and only
      then. */
  lemma AppFlag(w: Writer, e: Env, data: bytes, id: nat, inEarly: bool)
    requires WriterOk(w)
    ensures var (w', r, needs) := WriteApp(w, e, data, id, inEarly);
            && w'.closing == w.closing
            && (needs ==> r == -1 && inEarly && w.canEarly && e.maxEarly <= w'.earlyWritten && w.wnum <= w'.wnum <= |data|)
            && w'.canEarly == (!needs && w.canEarly)
  {
    hide AppLoop;
    if |data| >= w.wnum { LoopFlag(w.(wnum := 0), e, data, id, w.wnum, inEarly && w.canEarly); }
  }

  ghost predicate SealsAll(e: Env, overhead: nat) {
    forall n: nat, typ: byte, plain: bytes :: e.seal(n, typ, plain).Some? && |e.seal(n, typ, plain).value| <= |plain| + overhead
  }

  /** Nothing is in the way of application data: no record is pending, sealing
      works, the transport takes what it is given, and what is to be sent first
      leaves room for a record. */
  ghost predicate Unhindered(w: Writer, e: Env) {
    && WriterOk(w) && EnvOk(e) && Roomy(w.buf) && w.pend.None? && w.buf.size == 0
    && Willing(e) && SealsAll(e, w.aead.overhead)
    && |FlightBytes(w)| - w.off + |w.hs| + e.maxFragment + 2 * w.aead.overhead <= MODEST
  }

  function Least(a: nat, b: nat): (c: nat)
    ensures c <= a && c <= b && (c == a || c == b)
  {
    if a < b then a else b
  }

  /** A record takes what is left, but never more than max_send_fragment, and of
      early data no more than the ticket still allows. */
  function Piece(w: Writer, e: Env, n: nat, early: bool): nat
    requires early ==> w.earlyWritten <= e.maxEarly
  {
    if early then Least(Least(n, e.maxFragment), e.maxEarly - w.earlyWritten) else Least(n, e.maxFragment)
  }

  lemma MayWrite(w: Writer, e: Env, plain: bytes)
    requires Unhindered(w, e) && 1 <= |plain| <= e.maxFragment
    ensures CanWrite(w, e, 23, plain)
  {
    HsKeeps(w, e);
  }

  predicate WroteRecord(w: Writer, w': Writer, e: Env, plain: bytes)
    requires WriterOk(w) && CanWrite(w, e, 23, plain)
  {
    && w'.wire == w.wire + Out(w, e, 23, plain)
    && w'.sealed == w.sealed + NewSealings(w, e, 23, plain)
    && w'.flight.None? && w'.hs == []
  }

  lemma RecordWrites(w: Writer, e: Env, plain: bytes, id: nat)
    requires Unhindered(w, e) && CanWrite(w, e, 23, plain) && plain != []
    ensures var (w', r) := DoWrite(w, e, APPLICATION_DATA, plain, id);
            && r == |plain| && Unhindered(w', e) && RecordGone(w, w', e, plain)
            && w'.wnum == w.wnum && w'.canEarly == w.canEarly && w'.earlyWritten == w.earlyWritten && w'.closing == w.closing
  {
    hide DoWrite, CanWrite, NewSealings, Roomy, Contents;
    WriteWrites(w, e, 23, plain, id);
  }

  lemma RoundWrites(w: Writer, e: Env, data: bytes, id: nat, tot: nat, early: bool)
    requires Unhindered(w, e) && tot < |data| && (early ==> w.earlyWritten < e.maxEarly)
    ensures var (w', r) := AppRound(w, e, data, id, tot, early);
            && r == Piece(w, e, |data| - tot, early) && Unhindered(w', e)
            && RecordGone(w, w', e, data[tot..tot + Piece(w, e, |data| - tot, early)])
            && w'.wnum == w.wnum && w'.canEarly == w.canEarly
            && w'.earlyWritten == w.earlyWritten + if early then r else 0
  {
    hide CanWrite, WroteRecord, RecordGone, Unhindered, RecordSize, DoWrite, AppRound, AppRecord, Piece, WriterOk;
    PieceIs(w, e, data, tot, early);
    var plain := data[tot..tot + Piece(w, e, |data| - tot, early)];
    MayWrite(w, e, plain);
    RecordWrites(w, e, plain, id + tot);
    RoundIs(w, e, data, id, tot, early);
    StillUnhindered(w, DoWrite(w, e, APPLICATION_DATA, plain, id + tot).0, AppRound(w, e, data, id, tot, early).0, e, plain);
  }

  lemma PieceIs(w: Writer, e: Env, data: bytes, tot: nat, early: bool)
    requires Unhindered(w, e) && tot < |data| && (early ==> w.earlyWritten < e.maxEarly)
    ensures WriterOk(w) && 1 <= Piece(w, e, |data| - tot, early) <= e.maxFragment && tot + Piece(w, e, |data| - tot, early) <= |data|
    ensures AppRecord(w, e, data, tot, early) == data[tot..tot + Piece(w, e, |data| - tot, early)]
  {
    hide SealsAll, Willing, Roomy;
  }

  /** A round writes its record, and counts it if it was early. */
  lemma RoundIs(w: Writer, e: Env, data: bytes, id: nat, tot: nat, early: bool)
    requires WriterOk(w) && tot <= |data|
    ensures var (w1, r1) := DoWrite(w, e, APPLICATION_DATA, AppRecord(w, e, data, tot, early), id + tot);
            var (w2, r2) := AppRound(w, e, data, id, tot, early);
            && r2 == r1
            && (r1 > 0 ==> w2 == w1.(earlyWritten := w1.earlyWritten + if early then r1 else 0))
            && (r1 <= 0 ==> w2 == w1.(wnum := tot))
  {
    hide DoWrite, RecordSize;
  }

  /** The plaintext of the next record of application data. */
  function AppRecord(w: Writer, e: Env, data: bytes, tot: nat, early: bool): bytes
    requires tot <= |data|
  {
    data[tot..tot + RecordSize(w, e, |data| - tot, early)]
  }

  ghost predicate RecordGone(w: Writer, w': Writer, e: Env, plain: bytes) {
    WriterOk(w) && CanWrite(w, e, 23, plain) && WroteRecord(w, w', e, plain)
  }

  lemma StillUnhindered(w: Writer, w1: Writer, w2: Writer, e: Env, plain: bytes)
    requires Unhindered(w1, e) && RecordGone(w, w1, e, plain) && w2 == w1.(earlyWritten := w2.earlyWritten)
    ensures Unhindered(w2, e) && RecordGone(w, w2, e, plain)
  {
    hide CanWrite, Out, NewSealings;
  }

  /** How far a write of size bytes gets from offset tot when nothing is in its
      way: one record with partial writes; else everything, or as much early data
      as is allowed. */
  predicate GoesFar(w: Writer, w': Writer, e: Env, size: nat, tot: nat, early: bool, r: int, needs: bool)
    requires tot < size && (early ==> w.earlyWritten <= e.maxEarly)
  {
    var n := size - tot;
    var allowed := if early then Least(n, e.maxEarly - w.earlyWritten) else n;
    var taken := if e.partialWrite then Piece(w, e, n, early) else allowed;
    && w'.earlyWritten == w.earlyWritten + (if early then taken else 0)
    && if allowed == 0 || (allowed < n && !e.partialWrite) then needs && r == -1 && w'.wnum == tot + taken
       else !needs && r == tot + taken && w'.wnum == 0
  }

  lemma {:induction false} LoopWrites(w: Writer, e: Env, data: bytes, id: nat, tot: nat, early: bool)
    requires Unhindered(w, e) && tot < |data| && w.wnum == 0 && (early ==> w.earlyWritten <= e.maxEarly)
    ensures var (w', r, needs) := AppLoop(w, e, data, id, tot, early);
            && w'.pend.None? && w'.buf.size == 0
            && GoesFar(w, w', e, |data|, tot, early, r, needs)
    decreases |data| - tot
  {
    hide AppRound;
    if !early || w.earlyWritten < e.maxEarly {
      RoundWrites(w, e, data, id, tot, early);
      hide Unhindered;
      match AppRound(w, e, data, id, tot, early) {
        case (w1, r1) => if r1 < |data| - tot && !e.partialWrite { LoopWrites(w1, e, data, id, tot + r1, early); }
      }
    }
  }

  lemma AppWrites(w: Writer, e: Env, data: bytes, id: nat, inEarly: bool)
    requires Unhindered(w, e) && w.closing.shutdown.Open? && w.wnum < |data|
    requires inEarly && w.canEarly ==> w.earlyWritten <= e.maxEarly
    ensures var (w', r, needs) := WriteApp(w, e, data, id, inEarly);
            && w'.pend.None? && w'.buf.size == 0
            && GoesFar(w, w', e, |data|, w.wnum, inEarly && w.canEarly, r, needs)
  {
    hide AppLoop;
    var w1 := w.(wnum := 0);
    assert Unhindered(w1, e);
    hide Unhindered;
    LoopWrites(w1, e, data, id, w.wnum, inEarly && w.canEarly);
  }
}
