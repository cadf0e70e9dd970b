/** Application writes that block and are retried: the caller's buffer is sealed
    once, in order and without a gap, and early data keeps its limit. */
module TlsAppData {
  import opened Bytes
  import opened TlsBuffer
  import opened TlsWriter
  import opened TlsStream
  import opened TlsFraming

  /** Application bytes sealed. */
  function AppBytes(w: Writer): bytes { Plains(w.sealed, APPLICATION_DATA) }

  /** Application bytes sealed but not yet reported to the caller. */
  function InFlight(w: Writer): nat {
    if w.pend.Some? && w.pend.value.typ == APPLICATION_DATA then w.pend.value.tot else 0
  }

  function Positive(r: int): nat { if r > 0 then r else 0 }

  /** An operation that sealed the first k bytes of plain as application data and
      reported r of the application bytes sealed. */
  predicate Progressed(w: Writer, w': Writer, plain: bytes, k: nat, r: int) {
    && k <= |plain|
    && AppBytes(w') == AppBytes(w) + plain[..k]
    && InFlight(w) + k == InFlight(w') + Positive(r)
    && (InFlight(w) > 0 ==> k == 0)
    && (r > 0 ==> InFlight(w') == 0)
    && w'.wnum == w.wnum && w'.earlyWritten == w.earlyWritten
  }

  lemma OneMoreApp(w: Writer, w': Writer, typ: byte, plain: bytes)
    requires OneMore(w, w', typ, plain)
    ensures AppBytes(w') == AppBytes(w) + if typ == APPLICATION_DATA && w'.sealed != w.sealed then plain else []
  {
    hide Plains;
    if w'.sealed != w.sealed {
      var wire :| w'.sealed == w.sealed + [Sealing(typ, plain, wire)];
      Snoc(w.sealed, Sealing(typ, plain, wire));
    }
  }

  lemma FlushHsApp(w: Writer, e: Env)
    requires WriterOk(w)
    ensures AppBytes(FlushHs(w, e).0) == AppBytes(w) && SameButHs(w, FlushHs(w, e).0)
  {
    hide Plains;
    if w.hs != [] { AddRecordApp(w.(hs := []), e, HANDSHAKE, w.hs); }
  }

  predicate SameButHs(w: Writer, w': Writer) {
    w'.pend == w.pend && w'.wnum == w.wnum && w'.earlyWritten == w.earlyWritten
  }

  lemma AddRecordApp(w: Writer, e: Env, typ: byte, plain: bytes)
    requires WriterOk(w) && typ != APPLICATION_DATA
    ensures AppBytes(AddRecord(w, e, typ, plain).0) == AppBytes(w) && SameButHs(w, AddRecord(w, e, typ, plain).0)
  {
    hide Plains, Wires;
    match Seal(w, e, typ, plain, |plain| + w.aead.overhead) {
      case None =>
      case Some(s) => Snoc(w.sealed, s);
    }
  }

  /** What one record through the write buffer does to application data; plain is
      sealed whole or not at all. */
  lemma DoWriteApp(w: Writer, e: Env, plain: bytes, id: nat) returns (k: nat)
    requires WriterOk(w)
    ensures var (w', r) := DoWrite(w, e, APPLICATION_DATA, plain, id); Progressed(w, w', plain, k, r)
  {
    hide FlushBuf, FlushHs, WriteNew, Plains;
    k := 0;
    if w.pend.Some? {
      FlushBufCarries(w, e);
    } else if |plain| <= MAX_PLAIN && w.buf.size == 0 {
      FlushHsApp(w, e);
      var (w1, ok) := FlushHs(w, e);
      if ok { k := WriteNewApp(w1, e, plain, id); }
    }
  }

  lemma WriteNewApp(w: Writer, e: Env, plain: bytes, id: nat) returns (k: nat)
    requires WriterOk(w) && w.buf.size == 0 && w.pend.None?
    ensures var (w', r) := WriteNew(w, e, APPLICATION_DATA, plain, id); Progressed(w, w', plain, k, r)
  {
    hide FlushBuf, Fill, Plains, MaxOut;
    k := 0;
    if MaxOut(w, plain) > 0 {
      FillEffect(w, e, APPLICATION_DATA, plain);
      var (w2, ok) := Fill(w, e, APPLICATION_DATA, plain);
      OneMoreApp(w, w2, APPLICATION_DATA, plain);
      if ok {
        var w3 := w2.(pend := Some(Pending(|plain|, id, APPLICATION_DATA)));
        FlushBufCarries(w3, e);
        k := |plain|;
        assert plain[..k] == plain;
      }
    }
  }

  /** The application bytes sealed are base and then the caller's data, up to
      offset tot and what is in flight beyond it. */
  predicate SealedUpTo(w: Writer, base: bytes, data: bytes, tot: nat) {
    tot + InFlight(w) <= |data| && AppBytes(w) == base + data[..tot + InFlight(w)]
  }

  lemma AppRoundSeals(w: Writer, e: Env, data: bytes, id: nat, tot: nat, early: bool, base: bytes)
    requires WriterOk(w) && tot <= |data| && SealedUpTo(w, base, data, tot)
    ensures var (w', r) := AppRound(w, e, data, id, tot, early);
            && SealedUpTo(w', base, data, tot + Positive(r))
            && (r > 0 ==> InFlight(w') == 0)
            && w'.wnum == (if r <= 0 then tot else w.wnum)
            && w'.earlyWritten == w.earlyWritten + if early then Positive(r) else 0
  {
    hide DoWrite, AppBytes;
    var nw := RecordSize(w, e, |data| - tot, early);
    var plain := data[tot..tot + nw];
    var k := DoWriteApp(w, e, plain, id + tot);
    var (w1, r1) := DoWrite(w, e, APPLICATION_DATA, plain, id + tot);
    SameApp(w1, AppRound(w, e, data, id, tot, early).0);
    SliceOn(base, data, tot, InFlight(w), nw, k);
  }

  lemma SameApp(w: Writer, w': Writer)
    requires w'.sealed == w.sealed && w'.pend == w.pend
    ensures AppBytes(w') == AppBytes(w) && InFlight(w') == InFlight(w)
  {}

  lemma SliceOn(base: bytes, data: bytes, tot: nat, f: nat, nw: nat, k: nat)
    requires tot + f <= |data| && tot + nw <= |data| && k <= nw && (f > 0 ==> k == 0)
    ensures base + data[..tot + f] + data[tot..tot + nw][..k] == base + data[..tot + f + k]
  {
    if k > 0 { assert data[..tot] + data[tot..tot + nw][..k] == data[..tot + k]; }
  }

  /** A call of tls_write_app_data that begins in order ends in order. */
  predicate AppOutcome(w: Writer, r: int, base: bytes, data: bytes, partialWrite: bool) {
    if r > 0 then
      && r <= |data| && (!partialWrite ==> r == |data|)
      && AppBytes(w) == base + data[..r] && w.wnum == 0 && InFlight(w) == 0
    else
      SealedUpTo(w, base, data, w.wnum)
  }

  lemma {:induction false} AppLoopSeals(w: Writer, e: Env, data: bytes, id: nat, tot: nat, early: bool, base: bytes)
    requires WriterOk(w) && tot <= |data| && w.wnum == 0 && SealedUpTo(w, base, data, tot)
    ensures var (w', r, needs) := AppLoop(w, e, data, id, tot, early); AppOutcome(w', r, base, data, e.partialWrite)
    decreases |data| - tot
  {
    hide AppRound, AppBytes;
    if early && w.earlyWritten >= e.maxEarly {
      SameApp(w, w.(wnum := tot, canEarly := false));
    } else {
      AppRoundSeals(w, e, data, id, tot, early, base);
      match AppRound(w, e, data, id, tot, early) {
        case (w1, r1) =>
          if r1 > 0 && r1 != |data| - tot && !e.partialWrite {
            AppLoopSeals(w1, e, data, id, tot + r1, early, base);
          }
      }
    }
  }

  lemma WriteAppSeals(w: Writer, e: Env, data: bytes, id: nat, inEarly: bool, base: bytes)
    requires WriterOk(w) && SealedUpTo(w, base, data, w.wnum)
    ensures var (w', r, needs) := WriteApp(w, e, data, id, inEarly); AppOutcome(w', r, base, data, e.partialWrite)
  {
    hide AppLoop, AppBytes;
    SameApp(w, w.(wnum := 0));
    AppLoopSeals(w.(wnum := 0), e, data, id, w.wnum, inEarly && w.canEarly, base);
  }

  // ---------- Everything else leaves application data alone ----------

  lemma QuietWriteApp(w: Writer, e: Env, typ: byte, plain: bytes, id: nat)
    requires WriterOk(w) && typ != APPLICATION_DATA
    ensures SameApplication(w, DoWrite(w, e, typ, plain, id).0)
  {
    hide FlushBuf, FlushHs, WriteNew, Plains;
    if w.pend.Some? {
      FlushBufCarries(w, e);
    } else if |plain| <= MAX_PLAIN && w.buf.size == 0 {
      FlushHsApp(w, e);
      var (w1, ok) := FlushHs(w, e);
      if ok { QuietWriteNew(w1, e, typ, plain, id); }
    }
  }

  predicate SameApplication(w: Writer, w': Writer) {
    && AppBytes(w') == AppBytes(w) && InFlight(w') == InFlight(w)
    && w'.wnum == w.wnum && w'.earlyWritten == w.earlyWritten
  }

  lemma QuietWriteNew(w: Writer, e: Env, typ: byte, plain: bytes, id: nat)
    requires WriterOk(w) && w.buf.size == 0 && w.pend.None? && typ != APPLICATION_DATA
    ensures SameApplication(w, WriteNew(w, e, typ, plain, id).0)
  {
    hide FlushBuf, Fill, Plains, MaxOut;
    if MaxOut(w, plain) > 0 {
      FillEffect(w, e, typ, plain);
      var (w2, ok) := Fill(w, e, typ, plain);
      OneMoreApp(w, w2, typ, plain);
      if ok { FlushBufCarries(w2.(pend := Some(Pending(|plain|, id, typ))), e); }
    }
  }

  lemma {:induction false} AddChunksApp(w: Writer, e: Env, rest: bytes)
    requires WriterOk(w) && EnvOk(e)
    ensures SameApplication(w, AddChunks(w, e, rest).0)
    decreases |rest|
  {
    hide AddRecord, Plains;
    if rest != [] {
      var n := Min(|rest|, e.maxFragment);
      AddRecordApp(w, e, HANDSHAKE, rest[..n]);
      match AddRecord(w, e, HANDSHAKE, rest[..n]) {
        case (w1, ok) => if ok { AddChunksApp(w1, e, rest[n..]); }
      }
    }
  }

  lemma {:induction false} PackApp(w: Writer, e: Env, rest: bytes)
    requires WriterOk(w) && EnvOk(e)
    ensures SameApplication(w, Pack(w, e, rest).0)
    decreases |rest|
  {
    hide FlushHs, Plains;
    if rest != [] {
      FlushHsApp(w, e);
      match MakeRoom(w, e) {
        case (w1, ok) =>
          if ok {
            var n := Min(|rest|, e.maxFragment - |w1.hs|);
            PackApp(w1.(hs := w1.hs + rest[..n]), e, rest[n..]);
          }
      }
    }
  }

  lemma FlushFlightApp(w: Writer, e: Env)
    requires WriterOk(w)
    ensures SameApplication(w, FlushFlight(w, e).0)
  {
    hide FlushHs, FlushBuf, WriteFlight, Plains;
    FlushHsApp(w, e);
    var (w1, ok) := FlushHs(w, e);
    FlushBufCarries(w1, e);
    var (w2, r2) := if w1.buf.size > 0 then FlushBuf(w1, e) else (w1, 1);
    WriteFlightCarries(w2, e);
  }

  lemma DispatchApp(w: Writer, e: Env)
    requires WriterOk(w)
    ensures SameApplication(w, DispatchAlert(w, e).0)
  {
    hide AppBytes, DoWrite;
    QuietWriteApp(w, e, ALERT, [w.closing.level, w.closing.desc], ALERT_ID);
    match DoWrite(w, e, ALERT, [w.closing.level, w.closing.desc], ALERT_ID) {
      case (w1, r1) => if r1 > 0 { SameApp(w1, Dispatched(w1)); }
    }
  }

  lemma SendAlertApp(w: Writer, e: Env, level: byte, desc: byte)
    requires WriterOk(w) && MayAlert(level, desc)
    ensures SameApplication(w, SendAlert(w, e, level, desc).0)
  {
    hide AppBytes, DispatchAlert;
    var w1 := w.(closing := Closing(if level == WARNING then CloseSent else ErrorSent, true, level, desc));
    SameApp(w, w1);
    DispatchApp(w1, e);
  }

  lemma OtherEventApp(w: Writer, e: Env, ev: Event)
    requires WriterOk(w) && EnvOk(e) && !ev.App?
    ensures SameApplication(w, Step(w, e, ev))
  {
    hide AppBytes, AddChunks, Pack, FlushFlight, DoWrite, FlushHs, AddRecord;
    match ev {
      case Handshake(msg) => if w.aead.nullCipher { AddChunksApp(w, e, msg); } else { PackApp(w, e, msg); }
      case ChangeCipherSpec =>
        FlushHsApp(w, e);
        AddRecordApp(FlushHs(w, e).0, e, CHANGE_CIPHER_SPEC, [CCS_BYTE]);
      case Flush => FlushFlightApp(w, e);
      case Alert(level, desc) => if MayAlert(level, desc) { SendAlertApp(w, e, level, desc); }
      case AlertAgain => DispatchApp(w, e);
      case NewKeys(overhead, prefix) =>
        FlushHsApp(w, e);
        var w1 := FlushHs(w, e).0;
        SameApp(w1, w1.(aead := Aead(false, overhead, prefix)));
      case EarlyData(allowed) => SameApp(w, w.(canEarly := allowed));
    }
  }

  // ---------- Runs ----------

  /** Writes retried with one buffer that never shrinks below what was offered
      before: each offers a prefix of all, no shorter than the last. */
  predicate SameBuffer(evs: seq<Event>, all: bytes, n: nat)
    decreases |evs|
  {
    evs != [] ==>
    if evs[0].App? then n <= |evs[0].data| && evs[0].data <= all && SameBuffer(evs[1..], all, |evs[0].data|)
    else SameBuffer(evs[1..], all, n)
  }

  /** Every application write of the run was turned away. */
  predicate AllBlocked(w: Writer, e: Env, evs: seq<Event>)
    requires WriterOk(w) && EnvOk(e)
    decreases |evs|
  {
    evs != [] ==>
      && (evs[0].App? ==> WriteApp(w, e, evs[0].data, evs[0].id, evs[0].inEarly).1 <= 0)
      && AllBlocked(Step(w, e, evs[0]), e, evs[1..])
  }

  function LastLength(evs: seq<Event>, n: nat): nat
    decreases |evs|
  {
    if evs == [] then n else LastLength(evs[1..], if evs[0].App? then |evs[0].data| else n)
  }

  lemma {:induction false} BlockedRunSeals(w: Writer, e: Env, evs: seq<Event>, base: bytes, all: bytes, n: nat)
    requires WriterOk(w) && EnvOk(e) && n <= |all|
    requires SealedUpTo(w, base, all[..n], w.wnum)
    requires SameBuffer(evs, all, n) && AllBlocked(w, e, evs)
    ensures var w' := Run(w, e, evs);
            var n' := LastLength(evs, n);
            n <= n' <= |all| && SealedUpTo(w', base, all[..n'], w'.wnum)
    decreases |evs|
  {
    hide AppBytes, Step, WriteApp;
    if evs != [] {
      var w1 := Step(w, e, evs[0]);
      match evs[0] {
        case App(data, id, inEarly) =>
          assert all[..|data|] == data;
          PrefixOn(w, base, all, n, |data|, w.wnum);
          WriteAppSeals(w, e, data, id, inEarly, base);
          assert w1 == WriteApp(w, e, data, id, inEarly).0 by { StepApp(w, e, evs[0]); }
          BlockedRunSeals(w1, e, evs[1..], base, all, |data|);
        case _ =>
          OtherEventApp(w, e, evs[0]);
          BlockedRunSeals(w1, e, evs[1..], base, all, n);
      }
    }
  }

  lemma StepApp(w: Writer, e: Env, ev: Event)
    requires WriterOk(w) && EnvOk(e) && ev.App?
    ensures Step(w, e, ev) == WriteApp(w, e, ev.data, ev.id, ev.inEarly).0
  {}

  lemma PrefixOn(w: Writer, base: bytes, all: bytes, n: nat, m: nat, tot: nat)
    requires n <= m <= |all| && SealedUpTo(w, base, all[..n], tot)
    ensures SealedUpTo(w, base, all[..m], tot)
  {
    assert all[..m][..tot + InFlight(w)] == all[..n][..tot + InFlight(w)];
  }

  /** However often a write is turned away, whatever else is sent in between, and
      however the buffer grows meanwhile: when the write at last succeeds, what has
      been sealed for it is exactly the part of the buffer it reports, once and in
      order; without partial writes that is the whole buffer. */
  lemma ResumedWrite(w: Writer, e: Env, evs: seq<Event>, data: bytes, id: nat, inEarly: bool)
    requires WriterOk(w) && EnvOk(e) && w.wnum == 0 && InFlight(w) == 0
    requires SameBuffer(evs, data, 0) && AllBlocked(w, e, evs)
    ensures var w1 := Run(w, e, evs);
            var (w', r, needs) := WriteApp(w1, e, data, id, inEarly);
            && w1.wnum + InFlight(w1) <= |data|
            && (r > 0 ==>
                  && r <= |data| && (!e.partialWrite ==> r == |data|)
                  && AppBytes(w') == AppBytes(w) + data[..r]
                  && w'.wnum == 0 && InFlight(w') == 0)
  {
    hide AppBytes, WriteApp;
    var base := AppBytes(w);
    assert base + data[..0][..0] == base;
    BlockedRunSeals(w, e, evs, base, data, 0);
    var w1 := Run(w, e, evs);
    PrefixOn(w1, base, data, LastLength(evs, 0), |data|, w1.wnum);
    assert data[..|data|] == data;
    WriteAppSeals(w1, e, data, id, inEarly, base);
  }

  // ---------- Early data ----------

  lemma {:induction false} AppLoopEarly(w: Writer, e: Env, data: bytes, id: nat, tot: nat, early: bool)
    requires WriterOk(w) && tot <= |data| && w.earlyWritten <= e.maxEarly
    ensures AppLoop(w, e, data, id, tot, early).0.earlyWritten <= e.maxEarly
    decreases |data| - tot
  {
    hide DoWrite;
    if !early || w.earlyWritten < e.maxEarly {
      var plain := data[tot..tot + RecordSize(w, e, |data| - tot, early)];
      var k := DoWriteApp(w, e, plain, id + tot);
      match AppRound(w, e, data, id, tot, early) {
        case (w1, r1) => if r1 > 0 && r1 != |data| - tot { AppLoopEarly(w1, e, data, id, tot + r1, early); }
      }
    }
  }

  /** In every run early data stays within the ticket's limit. */
  lemma {:induction false} EarlyDataLimit(w: Writer, e: Env, evs: seq<Event>)
    requires WriterOk(w) && EnvOk(e) && w.earlyWritten <= e.maxEarly
    ensures Run(w, e, evs).earlyWritten <= e.maxEarly
    decreases |evs|
  {
    hide AppLoop;
    if evs != [] {
      match evs[0] {
        case App(data, id, inEarly) =>
          if |data| >= w.wnum { AppLoopEarly(w.(wnum := 0), e, data, id, w.wnum, inEarly && w.canEarly); }
        case _ => OtherEventApp(w, e, evs[0]);
      }
      EarlyDataLimit(Step(w, e, evs[0]), e, evs[1..]);
    }
  }
}
