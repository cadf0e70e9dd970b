/** What every run of a TLS writer keeps: nothing sealed is lost, repeated or
    reordered on its way to the transport, and handshake and application bytes
    are sealed once and in order. */
module TlsStream {
  import opened Bytes
  import opened TlsBuffer
  import opened TlsWriter

  function Wires(ss: seq<Sealing>): bytes {
    if ss == [] then [] else Wires(ss[..|ss| - 1]) + ss[|ss| - 1].wire
  }

  /** The plaintext of one type, in the order it was sealed. */
  function Plains(ss: seq<Sealing>, typ: byte): bytes {
    if ss == [] then []
    else Plains(ss[..|ss| - 1], typ) + if ss[|ss| - 1].typ == typ then ss[|ss| - 1].plain else []
  }

  lemma Snoc(ss: seq<Sealing>, s: Sealing)
    ensures Wires(ss + [s]) == Wires(ss) + s.wire
    ensures forall typ: byte :: Plains(ss + [s], typ) == Plains(ss, typ) + if s.typ == typ then s.plain else []
  {
    assert (ss + [s])[..|ss|] == ss;
  }

  /** What has left plus what is on its way. */
  function Outflow(w: Writer): bytes
    requires WriterOk(w)
  {
    w.wire + Contents(w.buf) + FlightBytes(w)[w.off..]
  }

  /** The most a write buffer may be asked to hold: its offset, at most 7 at
      first, must not pass 16 bits with bytes left. */
  const MODEST := U16 - (ALIGN - 1)

  /** The write buffer was never asked for more. */
  predicate Modest(w: Writer) { w.asked <= MODEST }

  predicate StreamOk(w: Writer) {
    WriterOk(w) && (Modest(w) ==> Roomy(w.buf) && Outflow(w) == Wires(w.sealed))
  }

  // ---------- Conservation ----------

  lemma AddRecordConserves(w: Writer, e: Env, typ: byte, plain: bytes)
    requires StreamOk(w)
    ensures StreamOk(AddRecord(w, e, typ, plain).0)
  {
    hide Contents;
    match Seal(w, e, typ, plain, |plain| + w.aead.overhead) {
      case None =>
      case Some(s) =>
        Snoc(w.sealed, s);
        JoinTail(w.wire + Contents(w.buf), FlightBytes(w), w.off, s.wire);
    }
  }

  lemma JoinTail(head: bytes, flight: bytes, off: nat, more: bytes)
    requires off <= |flight|
    ensures head + (flight + more)[off..] == head + flight[off..] + more
  {}

  lemma FlushHsConserves(w: Writer, e: Env)
    requires StreamOk(w)
    ensures StreamOk(FlushHs(w, e).0)
  {
    if w.hs != [] { AddRecordConserves(w.(hs := []), e, HANDSHAKE, w.hs); }
  }

  lemma {:induction false} AddChunksConserves(w: Writer, e: Env, rest: bytes)
    requires StreamOk(w) && EnvOk(e)
    ensures StreamOk(AddChunks(w, e, rest).0)
    decreases |rest|
  {
    hide AddRecord, Outflow, Wires;
    if rest != [] {
      var n := Min(|rest|, e.maxFragment);
      AddRecordConserves(w, e, HANDSHAKE, rest[..n]);
      match AddRecord(w, e, HANDSHAKE, rest[..n]) {
        case (w', ok) => if ok { AddChunksConserves(w', e, rest[n..]); }
      }
    }
  }

  lemma {:induction false} PackConserves(w: Writer, e: Env, rest: bytes)
    requires StreamOk(w) && EnvOk(e)
    ensures StreamOk(Pack(w, e, rest).0)
    decreases |rest|
  {
    hide FlushHs;
    if rest != [] {
      FlushHsConserves(w, e);
      match MakeRoom(w, e) {
        case (w1, ok) =>
          if ok {
            var n := Min(|rest|, e.maxFragment - |w1.hs|);
            PackConserves(w1.(hs := w1.hs + rest[..n]), e, rest[n..]);
          }
      }
    }
  }

  lemma WriteSomeConserves(w: Writer, e: Env)
    requires StreamOk(w) && w.buf.size > 0
    ensures StreamOk(WriteSome(w, e).0)
  {
    hide Wires;
    var n := Answer(w, e, w.buf.size);
    if n > 0 && Modest(w) {
      ConsumedDrops(w.buf, n);
      MoveFront(w.wire, Contents(w.buf), n, FlightBytes(w)[w.off..]);
    }
  }

  lemma {:induction false} FlushBufConserves(w: Writer, e: Env)
    requires StreamOk(w)
    ensures StreamOk(FlushBuf(w, e).0)
    decreases w.buf.size
  {
    hide Wires, WriteSome;
    if w.buf.size > 0 {
      WriteSomeConserves(w, e);
      match WriteSome(w, e) {
        case (w1, n) => if n > 0 { FlushBufConserves(w1, e); }
      }
    }
  }

  lemma MoveFront(wire: bytes, s: bytes, n: nat, rest: bytes)
    requires n <= |s|
    ensures wire + s[..n] + s[n..] + rest == wire + s + rest
  {
    assert s == s[..n] + s[n..];
  }

  lemma WriteFlightSomeConserves(w: Writer, e: Env)
    requires StreamOk(w) && w.buf.size == 0 && w.off < |FlightBytes(w)|
    ensures StreamOk(WriteFlightSome(w, e).0) && WriteFlightSome(w, e).0.buf == w.buf
  {
    EmptyContents(w.buf);
    hide Wires, Contents;
    var n := Answer(w, e, |FlightBytes(w)| - w.off);
    if n > 0 { MoveSlice(w.wire, FlightBytes(w), w.off, n); }
  }

  lemma {:induction false} WriteFlightConserves(w: Writer, e: Env)
    requires StreamOk(w) && w.buf.size == 0
    ensures StreamOk(WriteFlight(w, e).0)
    ensures WriteFlight(w, e).1 > 0 ==> var w' := WriteFlight(w, e).0; w'.buf == w.buf && w'.off == |FlightBytes(w')|
    decreases |FlightBytes(w)| - w.off
  {
    hide Wires, Contents, WriteFlightSome;
    if w.off < |FlightBytes(w)| {
      WriteFlightSomeConserves(w, e);
      match WriteFlightSome(w, e) {
        case (w1, n) => if n > 0 { WriteFlightConserves(w1, e); }
      }
    }
  }

  lemma MoveSlice(wire: bytes, s: bytes, off: nat, n: nat)
    requires off + n <= |s|
    ensures wire + s[off..][..n] + [] + s[off + n..] == wire + [] + s[off..]
  {}

  lemma FlushFlightConserves(w: Writer, e: Env)
    requires StreamOk(w)
    ensures StreamOk(FlushFlight(w, e).0)
  {
    hide FlushHs, FlushBuf, WriteFlight, Outflow, Wires;
    FlushHsConserves(w, e);
    var (w1, ok) := FlushHs(w, e);
    FlushBufConserves(w1, e);
    var (w2, r2) := if w1.buf.size > 0 then FlushBuf(w1, e) else (w1, 1);
    if r2 > 0 { FinishFlightConserves(w2, e); }
  }

  lemma FinishFlightConserves(w: Writer, e: Env)
    requires StreamOk(w) && w.buf.size == 0
    ensures StreamOk(FinishFlight(w, e).0)
  {
    hide Wires, WriteFlight;
    WriteFlightConserves(w, e);
    var (w1, r1) := WriteFlight(w, e);
    assert Contents(w.buf) == [];
  }

  // ---------- The write buffer ----------

  lemma MoveFlightConserves(w: Writer, e: Env, n: nat)
    requires StreamOk(w) && w.buf.size == 0 && |FlightBytes(w)| - w.off <= n
    ensures StreamOk(MoveFlight(w, e, n).0)
  {
    EnlargeConserves(w, e, n);
    hide Enlarge, Appended, Contents, StreamOk;
    match Enlarge(w, e, n) {
      case (w1, ok) => if ok && w.flight.Some? { ShiftConserves(w1); }
    }
  }

  lemma EnlargeConserves(w: Writer, e: Env, n: nat)
    requires StreamOk(w)
    ensures StreamOk(Enlarge(w, e, n).0)
  {
    hide Wires, Grown, Contents;
    var headerLen := |FlightBytes(w)| - w.off + w.aead.prefix;
    if n <= MODEST && Roomy(w.buf) { RoomyKept(w.buf, headerLen, n, e.alloc(w.calls), 0); }
  }

  /** The pending flight moves behind an empty buffer. */
  lemma ShiftConserves(w: Writer)
    requires StreamOk(w) && w.flight.Some? && w.buf.size == 0 && |FlightBytes(w)| - w.off <= w.buf.cap
    ensures StreamOk(w.(buf := Appended(w.buf, w.flight.value[w.off..]), flight := None, off := 0))
  {
    hide Wires, Appended, Contents;
    EmptyContents(w.buf);
    AppendedAdds(w.buf, w.flight.value[w.off..]);
    NoTail(w.wire, FlightBytes(w)[w.off..]);
  }

  lemma NoTail(wire: bytes, s: bytes)
    ensures wire + ([] + s) + [] == wire + [] + s
  {}

  lemma SealIntoBufConserves(w: Writer, e: Env, typ: byte, plain: bytes)
    requires StreamOk(w) && w.flight.None?
    ensures StreamOk(SealIntoBuf(w, e, typ, plain).0)
  {
    match Seal(w, e, typ, plain, w.buf.cap - w.buf.size) {
      case None =>
      case Some(s) =>
        Snoc(w.sealed, s);
        AppendedAdds(w.buf, s.wire);
        hide Contents, Wires;
        assert w.wire + (Contents(w.buf) + s.wire) + [] == w.wire + Contents(w.buf) + [] + s.wire;
    }
  }

  lemma FillConserves(w: Writer, e: Env, typ: byte, plain: bytes)
    requires StreamOk(w) && w.buf.size == 0
    ensures StreamOk(Fill(w, e, typ, plain).0)
  {
    MoveFlightConserves(w, e, MaxOut(w, plain));
    hide StreamOk, SealIntoBuf;
    match MoveFlight(w, e, MaxOut(w, plain)) {
      case (w1, ok) => if ok && plain != [] { SealIntoBufConserves(w1, e, typ, plain); }
    }
  }

  /** Fields that hold no bytes. */
  lemma BookkeepingConserves(w: Writer, w': Writer)
    requires StreamOk(w)
    requires w' == w.(hs := w'.hs, pend := w'.pend, wnum := w'.wnum, aead := w'.aead,
                      closing := w'.closing, calls := w'.calls, canEarly := w'.canEarly, earlyWritten := w'.earlyWritten)
    ensures StreamOk(w')
  {}

  lemma WritePendingConserves(w: Writer, e: Env, typ: byte, len: nat, id: nat)
    requires StreamOk(w) && w.pend.Some?
    ensures StreamOk(WritePending(w, e, typ, len, id).0)
  {
    hide Wires, FlushBuf;
    FlushBufConserves(w, e);
  }

  lemma WriteNewConserves(w: Writer, e: Env, typ: byte, plain: bytes, id: nat)
    requires StreamOk(w) && w.buf.size == 0
    ensures StreamOk(WriteNew(w, e, typ, plain, id).0)
  {
    hide Wires, Outflow, Fill, WritePending, MaxOut;
    FillConserves(w, e, typ, plain);
    var w2 := Fill(w, e, typ, plain).0;
    BookkeepingConserves(w2, w2.(pend := Some(Pending(|plain|, id, typ))));
    WritePendingConserves(w2.(pend := Some(Pending(|plain|, id, typ))), e, typ, |plain|, id);
  }

  lemma DoWriteConserves(w: Writer, e: Env, typ: byte, plain: bytes, id: nat)
    requires StreamOk(w)
    ensures StreamOk(DoWrite(w, e, typ, plain, id).0)
  {
    hide Wires, Outflow, FlushHs, WriteNew, WritePending;
    if w.pend.Some? {
      WritePendingConserves(w, e, typ, |plain|, id);
    } else if |plain| <= MAX_PLAIN && w.buf.size == 0 {
      FlushHsConserves(w, e);
      WriteNewConserves(FlushHs(w, e).0, e, typ, plain, id);
    }
  }

  lemma AppRoundConserves(w: Writer, e: Env, data: bytes, id: nat, tot: nat, early: bool)
    requires StreamOk(w) && tot <= |data|
    ensures StreamOk(AppRound(w, e, data, id, tot, early).0)
  {
    hide DoWrite, Outflow, Wires;
    var nw := RecordSize(w, e, |data| - tot, early);
    DoWriteConserves(w, e, APPLICATION_DATA, data[tot..tot + nw], id + tot);
    match DoWrite(w, e, APPLICATION_DATA, data[tot..tot + nw], id + tot) {
      case (w1, r1) =>
        BookkeepingConserves(w1, AppRound(w, e, data, id, tot, early).0);
    }
  }

  lemma {:induction false} AppLoopConserves(w: Writer, e: Env, data: bytes, id: nat, tot: nat, early: bool)
    requires StreamOk(w) && tot <= |data|
    ensures StreamOk(AppLoop(w, e, data, id, tot, early).0)
    decreases |data| - tot
  {
    hide AppRound, Outflow, Wires;
    BookkeepingConserves(w, w.(wnum := tot, canEarly := false));
    AppRoundConserves(w, e, data, id, tot, early);
    match AppRound(w, e, data, id, tot, early) {
      case (w1, r1) =>
        if r1 > 0 && r1 != |data| - tot { AppLoopConserves(w1, e, data, id, tot + r1, early); }
    }
  }

  // ---------- Runs ----------

  /** Everything a connection does with its writer. */
  datatype Event =
    | Handshake(msg: bytes)
    | ChangeCipherSpec
    | Flush
    | App(data: bytes, id: nat, inEarly: bool)
    | Alert(level: byte, desc: byte)
    | AlertAgain
    | NewKeys(overhead: nat, prefix: nat)
    | EarlyData(allowed: bool)

  function Step(w: Writer, e: Env, ev: Event): (w': Writer)
    requires WriterOk(w) && EnvOk(e)
    ensures WriterOk(w')
  {
    match ev
    case Handshake(msg) => AddMessage(w, e, msg).0
    case ChangeCipherSpec => AddChangeCipherSpec(w, e).0
    case Flush => FlushFlight(w, e).0
    case App(data, id, inEarly) => WriteApp(w, e, data, id, inEarly).0
    case Alert(level, desc) => if MayAlert(level, desc) then SendAlert(w, e, level, desc).0 else w
    case AlertAgain => if w.closing.dispatch then DispatchAlert(w, e).0 else w
    case NewKeys(overhead, prefix) => SetWriteState(w, e, overhead, prefix).0
    case EarlyData(allowed) => w.(canEarly := allowed)
  }

  function Run(w: Writer, e: Env, evs: seq<Event>): (w': Writer)
    requires WriterOk(w) && EnvOk(e)
    ensures WriterOk(w')
    decreases |evs|
  {
    if evs == [] then w else Run(Step(w, e, evs[0]), e, evs[1..])
  }

  lemma StepConserves(w: Writer, e: Env, ev: Event)
    requires StreamOk(w) && EnvOk(e)
    ensures StreamOk(Step(w, e, ev))
  {
    hide Wires, Outflow, DoWrite, AddChunks, Pack, FlushHs, AddRecord, FlushFlight, AppLoop;
    match ev {
      case Handshake(msg) =>
        if w.aead.nullCipher { AddChunksConserves(w, e, msg); } else { PackConserves(w, e, msg); }
      case ChangeCipherSpec =>
        FlushHsConserves(w, e);
        if FlushHs(w, e).1 { AddRecordConserves(FlushHs(w, e).0, e, CHANGE_CIPHER_SPEC, [CCS_BYTE]); }
      case Flush => FlushFlightConserves(w, e);
      case App(data, id, inEarly) =>
        BookkeepingConserves(w, w.(wnum := 0));
        if |data| >= w.wnum { AppLoopConserves(w.(wnum := 0), e, data, id, w.wnum, inEarly && w.canEarly); }
      case Alert(level, desc) => if MayAlert(level, desc) { SendAlertConserves(w, e, level, desc); }
      case AlertAgain => DispatchConserves(w, e);
      case NewKeys(overhead, prefix) =>
        FlushHsConserves(w, e);
        var w1 := FlushHs(w, e).0;
        BookkeepingConserves(w1, w1.(aead := Aead(false, overhead, prefix)));
      case EarlyData(allowed) => BookkeepingConserves(w, w.(canEarly := allowed));
    }
  }

  lemma DispatchConserves(w: Writer, e: Env)
    requires StreamOk(w)
    ensures StreamOk(DispatchAlert(w, e).0)
  {
    assert WriterOk(w);
    hide DoWrite, StreamOk;
    DoWriteConserves(w, e, ALERT, [w.closing.level, w.closing.desc], ALERT_ID);
    match DoWrite(w, e, ALERT, [w.closing.level, w.closing.desc], ALERT_ID) {
      case (w1, r1) => if r1 > 0 { BookkeepingConserves(w1, Dispatched(w1)); }
    }
  }

  lemma SendAlertConserves(w: Writer, e: Env, level: byte, desc: byte)
    requires StreamOk(w) && MayAlert(level, desc)
    ensures StreamOk(SendAlert(w, e, level, desc).0)
  {
    hide DispatchAlert;
    var w1 := w.(closing := Closing(if level == WARNING then CloseSent else ErrorSent, true, level, desc));
    BookkeepingConserves(w, w1);
    hide StreamOk;
    DispatchConserves(w1, e);
  }

  lemma {:induction false} RunConserves(w: Writer, e: Env, evs: seq<Event>)
    requires StreamOk(w) && EnvOk(e)
    ensures StreamOk(Run(w, e, evs))
    decreases |evs|
  {
    if evs != [] {
      StepConserves(w, e, evs[0]);
      RunConserves(Step(w, e, evs[0]), e, evs[1..]);
    }
  }

  /** In every interleaving, with any partial writes and refusals: the bytes the
      transport took, then those in the write buffer, then those of the pending
      flight, are the sealed records, one after the other in the order they were
      sealed. */
  lemma WireConservation(e: Env, evs: seq<Event>)
    requires EnvOk(e) && Modest(Run(Start(), e, evs))
    ensures var w := Run(Start(), e, evs);
            w.wire + Contents(w.buf) + FlightBytes(w)[w.off..] == Wires(w.sealed)
  {
    RunConserves(Start(), e, evs);
  }
}
