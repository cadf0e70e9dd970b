/** What a TLS writer seals: handshake records that carry the handshake messages
    exactly, and application records that carry the caller's buffer exactly
    across any number of blocked writes. */
module TlsFraming {
  import opened Bytes
  import opened TlsBuffer
  import opened TlsWriter
  import opened TlsStream

  /** Only bytes already sealed have moved. */
  predicate Carried(w: Writer, w': Writer) {
    w' == w.(calls := w'.calls, wire := w'.wire, buf := w'.buf, off := w'.off, flight := w'.flight, asked := w'.asked)
  }

  lemma {:induction false} FlushBufCarries(w: Writer, e: Env)
    requires WriterOk(w)
    ensures Carried(w, FlushBuf(w, e).0)
    decreases w.buf.size
  {
    if w.buf.size > 0 {
      match WriteSome(w, e) {
        case (w1, n) => if n > 0 { FlushBufCarries(w1, e); }
      }
    }
  }

  lemma {:induction false} WriteFlightCarries(w: Writer, e: Env)
    requires WriterOk(w)
    ensures Carried(w, WriteFlight(w, e).0)
    decreases |FlightBytes(w)| - w.off
  {
    if w.off < |FlightBytes(w)| {
      match WriteFlightSome(w, e) {
        case (w1, n) => if n > 0 { WriteFlightCarries(w1, e); }
      }
    }
  }

  // ---------- Handshake records ----------

  /** The handshake bytes sealed and still to be sealed. */
  function HandshakeBytes(w: Writer): bytes {
    Plains(w.sealed, HANDSHAKE) + w.hs
  }

  predicate RecordOk(s: Sealing, e: Env) {
    s.typ == HANDSHAKE ==> 1 <= |s.plain| <= e.maxFragment
  }

  predicate FrameOk(w: Writer, e: Env) {
    && WriterOk(w) && EnvOk(e)
    && (w.aead.nullCipher ==> w.hs == [])
    && |w.hs| <= e.maxFragment
    && (forall i | 0 <= i < |w.sealed| :: RecordOk(w.sealed[i], e))
  }

  /** One or more steps that add some handshake bytes; only a failure to seal
      loses any. */
  predicate Framed(w: Writer, w': Writer, e: Env, more: bytes) {
    && FrameOk(w', e)
    && (w.failed ==> w'.failed)
    && (!w'.failed ==> HandshakeBytes(w') == HandshakeBytes(w) + more)
  }

  lemma FramedThen(w: Writer, w1: Writer, w2: Writer, e: Env, a: bytes, b: bytes)
    requires Framed(w, w1, e, a) && Framed(w1, w2, e, b)
    ensures Framed(w, w2, e, a + b)
  {
    assert HandshakeBytes(w) + a + b == HandshakeBytes(w) + (a + b);
  }

  lemma NothingMore()
    ensures var none: bytes := []; none + none == none
  {}

  /** Steps that neither seal nor touch pending handshake bytes. */
  lemma QuietFrames(w: Writer, w': Writer, e: Env)
    requires FrameOk(w, e) && WriterOk(w')
    requires w'.sealed == w.sealed && w'.hs == w.hs && w'.failed == w.failed
    requires w'.aead.nullCipher ==> w.aead.nullCipher
    ensures Framed(w, w', e, [])
  {}

  lemma OtherRecordFrames(w: Writer, e: Env, typ: byte, plain: bytes)
    requires FrameOk(w, e) && typ != HANDSHAKE
    ensures Framed(w, AddRecord(w, e, typ, plain).0, e, [])
  {
    hide Wires, Plains;
    match Seal(w, e, typ, plain, |plain| + w.aead.overhead) {
      case None =>
      case Some(s) => Snoc(w.sealed, s);
    }
  }

  /** A handshake record takes its bytes ahead of any pending ones, so nothing may
      be pending. */
  lemma HandshakeRecordFrames(w: Writer, e: Env, plain: bytes)
    requires FrameOk(w, e) && w.hs == [] && 1 <= |plain| <= e.maxFragment
    ensures Framed(w, AddRecord(w, e, HANDSHAKE, plain).0, e, plain)
    ensures AddRecord(w, e, HANDSHAKE, plain).1 || AddRecord(w, e, HANDSHAKE, plain).0.failed
    ensures AddRecord(w, e, HANDSHAKE, plain).0.aead == w.aead
  {
    hide Wires, Plains;
    match Seal(w, e, HANDSHAKE, plain, |plain| + w.aead.overhead) {
      case None =>
      case Some(s) =>
        Snoc(w.sealed, s);
        assert Plains(w.sealed, HANDSHAKE) + plain + [] == Plains(w.sealed, HANDSHAKE) + [] + plain;
    }
  }

  lemma FlushHsFrames(w: Writer, e: Env)
    requires FrameOk(w, e)
    ensures Framed(w, FlushHs(w, e).0, e, [])
    ensures FlushHs(w, e).1 || FlushHs(w, e).0.failed
    ensures FlushHs(w, e).0.aead == w.aead
  {
    if w.hs != [] {
      var w1 := w.(hs := []);
      HandshakeRecordFrames(w1, e, w.hs);
      assert Plains(w.sealed, HANDSHAKE) + w.hs + [] == Plains(w.sealed, HANDSHAKE) + [] + w.hs;
    }
  }

  lemma {:induction false} AddChunksFrames(w: Writer, e: Env, rest: bytes)
    requires FrameOk(w, e) && w.aead.nullCipher
    ensures Framed(w, AddChunks(w, e, rest).0, e, rest)
    ensures AddChunks(w, e, rest).1 || AddChunks(w, e, rest).0.failed
    decreases |rest|
  {
    hide AddRecord, Framed, HandshakeBytes;
    if rest == [] {
      QuietFrames(w, w, e);
    } else {
      var n := Min(|rest|, e.maxFragment);
      HandshakeRecordFrames(w, e, rest[..n]);
      var (w1, ok) := AddRecord(w, e, HANDSHAKE, rest[..n]);
      FramedOk(w, w1, e, rest[..n]);
      if ok {
        AddChunksFrames(w1, e, rest[n..]);
        FramedThen(w, w1, AddChunks(w, e, rest).0, e, rest[..n], rest[n..]);
        assert rest[..n] + rest[n..] == rest;
      } else {
        FailedFrames(w, w1, e, rest[..n], rest);
      }
    }
  }

  lemma FramedOk(w: Writer, w': Writer, e: Env, more: bytes)
    requires Framed(w, w', e, more)
    ensures FrameOk(w', e)
  {}

  lemma FailedFrames(w: Writer, w': Writer, e: Env, a: bytes, b: bytes)
    requires Framed(w, w', e, a) && w'.failed
    ensures Framed(w, w', e, b)
  {}

  /** Bytes that wait in pending_hs_data. */
  lemma WaitFrames(w: Writer, e: Env, more: bytes)
    requires FrameOk(w, e) && !w.aead.nullCipher && |w.hs| + |more| <= e.maxFragment
    ensures Framed(w, w.(hs := w.hs + more), e, more)
  {
    hide Plains;
    assert Plains(w.sealed, HANDSHAKE) + (w.hs + more) == Plains(w.sealed, HANDSHAKE) + w.hs + more;
  }

  lemma {:induction false} PackFrames(w: Writer, e: Env, rest: bytes)
    requires FrameOk(w, e) && !w.aead.nullCipher
    ensures Framed(w, Pack(w, e, rest).0, e, rest)
    ensures Pack(w, e, rest).1 || Pack(w, e, rest).0.failed
    decreases |rest|
  {
    hide FlushHs, Framed, HandshakeBytes;
    if rest == [] {
      QuietFrames(w, w, e);
    } else {
      FlushHsFrames(w, e);
      QuietFrames(w, w, e);
      var (w1, ok) := MakeRoom(w, e);
      FramedOk(w, w1, e, []);
      if ok {
        var n := Min(|rest|, e.maxFragment - |w1.hs|);
        var w2 := w1.(hs := w1.hs + rest[..n]);
        WaitFrames(w1, e, rest[..n]);
        FramedOk(w1, w2, e, rest[..n]);
        PackFrames(w2, e, rest[n..]);
        var w3 := Pack(w2, e, rest[n..]).0;
        FramedThen(w1, w2, w3, e, rest[..n], rest[n..]);
        FramedThen(w, w1, w3, e, [], rest[..n] + rest[n..]);
        assert [] + (rest[..n] + rest[n..]) == rest;
      } else {
        FailedFrames(w, w1, e, [], rest);
      }
    }
  }

  // ---------- One record through the write buffer ----------

  /** At most one record more, of this type and plaintext. */
  ghost predicate OneMore(w: Writer, w': Writer, typ: byte, plain: bytes) {
    || w'.sealed == w.sealed
    || (plain != [] && exists wire :: w'.sealed == w.sealed + [Sealing(typ, plain, wire)])
  }

  /** Nothing else about the caller's requests has changed. */
  predicate SameRequests(w: Writer, w': Writer) {
    && w'.hs == w.hs && w'.aead == w.aead && w'.wnum == w.wnum
    && w'.canEarly == w.canEarly && w'.earlyWritten == w.earlyWritten && w'.closing == w.closing
    && (w.failed ==> w'.failed)
  }

  lemma FillEffect(w: Writer, e: Env, typ: byte, plain: bytes)
    requires WriterOk(w) && w.buf.size == 0
    ensures var (w', ok) := Fill(w, e, typ, plain);
            && SameRequests(w, w') && w'.pend == w.pend && OneMore(w, w', typ, plain)
            && (ok ==> plain == [] || w'.sealed != w.sealed)
            && (!ok ==> w'.sealed == w.sealed)
  {
    hide MoveFlight, Appended;
    MoveFlightCarries(w, e, MaxOut(w, plain));
    match MoveFlight(w, e, MaxOut(w, plain)) {
      case (w1, ok) =>
        if ok && plain != [] {
          match Seal(w1, e, typ, plain, w1.buf.cap - w1.buf.size) {
            case None =>
            case Some(s) => assert Fill(w, e, typ, plain).0.sealed == w.sealed + [Sealing(typ, plain, s.wire)];
          }
        }
    }
  }

  lemma MoveFlightCarries(w: Writer, e: Env, n: nat)
    requires WriterOk(w) && w.buf.size == 0 && |FlightBytes(w)| - w.off <= n
    ensures Carried(w, MoveFlight(w, e, n).0)
  {
    hide Appended, Grown;
  }

  lemma OneMoreFrames(w: Writer, w': Writer, e: Env, typ: byte, plain: bytes)
    requires FrameOk(w, e) && typ != HANDSHAKE && WriterOk(w') && OneMore(w, w', typ, plain)
    requires w'.hs == w.hs && w'.aead == w.aead && (w.failed ==> w'.failed)
    ensures Framed(w, w', e, [])
  {
    hide Plains, BufOk;
    if w'.sealed != w.sealed {
      var wire :| w'.sealed == w.sealed + [Sealing(typ, plain, wire)];
      Snoc(w.sealed, Sealing(typ, plain, wire));
      forall i | 0 <= i < |w'.sealed| ensures RecordOk(w'.sealed[i], e) {
        if i < |w.sealed| { assert RecordOk(w.sealed[i], e); }
      }
    }
  }

  lemma DoWriteFrames(w: Writer, e: Env, typ: byte, plain: bytes, id: nat)
    requires FrameOk(w, e) && typ != HANDSHAKE
    ensures Framed(w, DoWrite(w, e, typ, plain, id).0, e, [])
  {
    hide Framed, FlushBuf, FlushHs, Fill, HandshakeBytes, MaxOut;
    QuietFrames(w, w, e);
    if w.pend.Some? {
      FlushBufCarries(w, e);
      QuietFrames(w, DoWrite(w, e, typ, plain, id).0, e);
    } else if |plain| <= MAX_PLAIN && w.buf.size == 0 {
      FlushHsFrames(w, e);
      var (w1, ok) := FlushHs(w, e);
      if ok {
        FramedOk(w, w1, e, []);
        WriteNewFrames(w1, e, typ, plain, id);
        FramedThen(w, w1, WriteNew(w1, e, typ, plain, id).0, e, [], []);
        NothingMore();
      }
    }
  }

  lemma WriteNewFrames(w: Writer, e: Env, typ: byte, plain: bytes, id: nat)
    requires FrameOk(w, e) && typ != HANDSHAKE && w.buf.size == 0
    ensures Framed(w, WriteNew(w, e, typ, plain, id).0, e, [])
  {
    hide Framed, FlushBuf, Fill, HandshakeBytes, MaxOut;
    QuietFrames(w, w, e);
    FillEffect(w, e, typ, plain);
    var (w2, ok) := Fill(w, e, typ, plain);
    OneMoreFrames(w, w2, e, typ, plain);
    FramedOk(w, w2, e, []);
    if ok {
      var w3 := w2.(pend := Some(Pending(|plain|, id, typ)));
      FlushBufCarries(w3, e);
      var w4 := WritePending(w3, e, typ, |plain|, id).0;
      QuietFrames(w2, w4, e);
      FramedThen(w, w2, w4, e, [], []);
    }
  }

  // ---------- Runs ----------

  lemma AppRoundFrames(w: Writer, e: Env, data: bytes, id: nat, tot: nat, early: bool)
    requires FrameOk(w, e) && tot <= |data|
    ensures Framed(w, AppRound(w, e, data, id, tot, early).0, e, [])
  {
    hide DoWrite, Framed;
    var plain := data[tot..tot + RecordSize(w, e, |data| - tot, early)];
    DoWriteFrames(w, e, APPLICATION_DATA, plain, id + tot);
    var (w1, r1) := DoWrite(w, e, APPLICATION_DATA, plain, id + tot);
    FramedOk(w, w1, e, []);
    var w2 := AppRound(w, e, data, id, tot, early).0;
    QuietFrames(w1, w2, e);
    FramedThen(w, w1, w2, e, [], []);
    NothingMore();
  }

  lemma {:induction false} AppLoopFrames(w: Writer, e: Env, data: bytes, id: nat, tot: nat, early: bool)
    requires FrameOk(w, e) && tot <= |data|
    ensures Framed(w, AppLoop(w, e, data, id, tot, early).0, e, [])
    decreases |data| - tot
  {
    hide AppRound, Framed;
    QuietFrames(w, w.(wnum := tot, canEarly := false), e);
    AppRoundFrames(w, e, data, id, tot, early);
    match AppRound(w, e, data, id, tot, early) {
      case (w1, r1) =>
        if r1 > 0 && r1 != |data| - tot {
          FramedOk(w, w1, e, []);
          AppLoopFrames(w1, e, data, id, tot + r1, early);
          FramedThen(w, w1, AppLoop(w1, e, data, id, tot + r1, early).0, e, [], []);
          NothingMore();
        }
    }
  }

  lemma FlushFlightFrames(w: Writer, e: Env)
    requires FrameOk(w, e)
    ensures Framed(w, FlushFlight(w, e).0, e, [])
  {
    hide FlushHs, FlushBuf, WriteFlight, Framed, HandshakeBytes;
    FlushHsFrames(w, e);
    var (w1, ok) := FlushHs(w, e);
    FramedOk(w, w1, e, []);
    FlushBufCarries(w1, e);
    var (w2, r2) := if w1.buf.size > 0 then FlushBuf(w1, e) else (w1, 1);
    WriteFlightCarries(w2, e);
    var w3 := FlushFlight(w, e).0;
    if ok {
      QuietFrames(w1, w3, e);
      FramedThen(w, w1, w3, e, [], []);
      NothingMore();
    }
  }

  /** The handshake messages given to the writer. */
  function Messages(evs: seq<Event>): bytes {
    if evs == [] then []
    else (if evs[0].Handshake? then evs[0].msg else []) + Messages(evs[1..])
  }

  lemma AppFrames(w: Writer, e: Env, data: bytes, id: nat, inEarly: bool)
    requires FrameOk(w, e)
    ensures Framed(w, WriteApp(w, e, data, id, inEarly).0, e, [])
  {
    hide AppLoop, Framed;
    var w1 := w.(wnum := 0);
    QuietFrames(w, w, e);
    QuietFrames(w, w1, e);
    FramedOk(w, w1, e, []);
    if |data| >= w.wnum {
      AppLoopFrames(w1, e, data, id, w.wnum, inEarly && w.canEarly);
      FramedThen(w, w1, AppLoop(w1, e, data, id, w.wnum, inEarly && w.canEarly).0, e, [], []);
      NothingMore();
    }
  }

  lemma DispatchFrames(w: Writer, e: Env)
    requires FrameOk(w, e)
    ensures Framed(w, DispatchAlert(w, e).0, e, [])
  {
    hide DoWrite, Framed;
    DoWriteFrames(w, e, ALERT, [w.closing.level, w.closing.desc], ALERT_ID);
    match DoWrite(w, e, ALERT, [w.closing.level, w.closing.desc], ALERT_ID) {
      case (w1, r1) =>
        if r1 > 0 {
          FramedOk(w, w1, e, []);
          QuietFrames(w1, Dispatched(w1), e);
          FramedThen(w, w1, Dispatched(w1), e, [], []);
          NothingMore();
        }
    }
  }

  lemma SendAlertFrames(w: Writer, e: Env, level: byte, desc: byte)
    requires FrameOk(w, e) && MayAlert(level, desc)
    ensures Framed(w, SendAlert(w, e, level, desc).0, e, [])
  {
    hide DispatchAlert, Framed;
    var w1 := w.(closing := Closing(if level == WARNING then CloseSent else ErrorSent, true, level, desc));
    QuietFrames(w, w, e);
    QuietFrames(w, w1, e);
    FramedOk(w, w1, e, []);
    DispatchFrames(w1, e);
    FramedThen(w, w1, DispatchAlert(w1, e).0, e, [], []);
    NothingMore();
  }

  lemma FlushThenFrames(w: Writer, e: Env, ev: Event)
    requires FrameOk(w, e) && (ev.ChangeCipherSpec? || ev.NewKeys?)
    ensures Framed(w, Step(w, e, ev), e, [])
  {
    hide FlushHs, AddRecord, Framed;
    FlushHsFrames(w, e);
    var (w1, ok) := FlushHs(w, e);
    if ok {
      FramedOk(w, w1, e, []);
      var w2 := Step(w, e, ev);
      if ev.NewKeys? {
        QuietFrames(w1, w2, e);
      } else {
        OtherRecordFrames(w1, e, CHANGE_CIPHER_SPEC, [CCS_BYTE]);
      }
      FramedThen(w, w1, w2, e, [], []);
      NothingMore();
    }
  }

  lemma StepFrames(w: Writer, e: Env, ev: Event)
    requires FrameOk(w, e)
    ensures Framed(w, Step(w, e, ev), e, if ev.Handshake? then ev.msg else [])
  {
    hide Framed, DispatchAlert, WriteApp, FlushFlight, AddChunks, Pack, SetWriteState, AddChangeCipherSpec;
    match ev {
      case Handshake(msg) =>
        if w.aead.nullCipher { AddChunksFrames(w, e, msg); } else { PackFrames(w, e, msg); }
      case ChangeCipherSpec => FlushThenFrames(w, e, ev);
      case Flush => FlushFlightFrames(w, e);
      case App(data, id, inEarly) => AppFrames(w, e, data, id, inEarly);
      case Alert(level, desc) =>
        QuietFrames(w, w, e);
        if MayAlert(level, desc) { SendAlertFrames(w, e, level, desc); }
      case AlertAgain =>
        QuietFrames(w, w, e);
        DispatchFrames(w, e);
      case NewKeys(overhead, prefix) => FlushThenFrames(w, e, ev);
      case EarlyData(allowed) => QuietFrames(w, w.(canEarly := allowed), e);
    }
  }

  lemma {:induction false} RunFrames(w: Writer, e: Env, evs: seq<Event>)
    requires FrameOk(w, e)
    ensures Framed(w, Run(w, e, evs), e, Messages(evs))
    decreases |evs|
  {
    hide Framed, Step;
    if evs == [] {
      QuietFrames(w, w, e);
    } else {
      var w1 := Step(w, e, evs[0]);
      StepFrames(w, e, evs[0]);
      FramedOk(w, w1, e, if evs[0].Handshake? then evs[0].msg else []);
      RunFrames(w1, e, evs[1..]);
      FramedThen(w, w1, Run(w1, e, evs[1..]), e, if evs[0].Handshake? then evs[0].msg else [], Messages(evs[1..]));
    }
  }

  /** In every run, up to a failure to seal: the handshake records, then what is
      pending, are the handshake messages byte for byte, and each handshake record
      has at least one byte and at most max_send_fragment. */
  lemma HandshakeFraming(e: Env, evs: seq<Event>)
    requires EnvOk(e) && !Run(Start(), e, evs).failed
    ensures var w := Run(Start(), e, evs);
            && Plains(w.sealed, HANDSHAKE) + w.hs == Messages(evs)
            && forall i | 0 <= i < |w.sealed| && w.sealed[i].typ == HANDSHAKE ::
                 1 <= |w.sealed[i].plain| <= e.maxFragment
  {
    hide Run, Plains;
    var w := Run(Start(), e, evs);
    StartFrames(e);
    RunFrames(Start(), e, evs);
    forall i | 0 <= i < |w.sealed| && w.sealed[i].typ == HANDSHAKE ensures 1 <= |w.sealed[i].plain| <= e.maxFragment {
      assert RecordOk(w.sealed[i], e);
    }
  }

  lemma StartFrames(e: Env)
    requires EnvOk(e)
    ensures FrameOk(Start(), e) && HandshakeBytes(Start()) == []
  {}
}
