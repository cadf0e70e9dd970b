/** The records of the current transmission are among those sealed, each with the
    message it was cut from. */
module DtlsLog {
  import opened Bytes
  import opened Reassembly
  import opened DtlsWire
  import opened DtlsWriter
  import opened DtlsFlight
  import H = DtlsHistory

  /** The messages the records of the log were cut from. */
  function LogOrigins(w: Writer): (r: seq<nat>)
    ensures |r| == |w.log|
  {
    H.Origins(w, 0, 0, w.log)
  }

  /** Record m of the log is sealed record j, and belongs to the same message. */
  predicate LoggedAt(h: H.History, m: nat, j: nat) {
    && m < |h.w.log| && j < |h.w.sealed| && j < |h.from|
    && h.w.sealed[j] == h.w.log[m] && h.from[j] == LogOrigins(h.w)[m]
  }

  ghost predicate Logged(h: H.History, m: nat) {
    exists j: nat :: LoggedAt(h, m, j)
  }

  ghost predicate LogOk(h: H.History) {
    forall m | 0 <= m < |h.w.log| :: Logged(h, m)
  }

  lemma {:induction false} OriginsAppend(w: Writer, i: nat, off: nat, xs: seq<Record>, ys: seq<Record>)
    requires Tile(w.flight, i, off, xs).Some?
    ensures var p := Tile(w.flight, i, off, xs).value;
            H.Origins(w, i, off, xs + ys) == H.Origins(w, i, off, xs) + H.Origins(w, p.0, p.1, ys)
    decreases |xs|
  {
    hide Follows, H.PlaceOf;
    if xs == [] {
      assert xs + ys == ys;
    } else {
      var p := Follows(w.flight, i, off, xs[0]).value;
      assert (xs + ys)[0] == xs[0] && (xs + ys)[1..] == xs[1..] + ys;
      OriginsAppend(w, p.0, p.1, xs[1..], ys);
    }
  }

  /** Queueing more moves no record to another message. */
  lemma {:induction false} OriginsFrame(w: Writer, w': Writer, more: seq<OutMsg>, i: nat, off: nat, recs: seq<Record>)
    requires Tile(w.flight, i, off, recs).Some? && w'.flight == w.flight + more
    requires forall x | 0 <= x <= |w.flight| :: H.PlaceOf(w', x) == H.PlaceOf(w, x)
    ensures H.Origins(w', i, off, recs) == H.Origins(w, i, off, recs)
    decreases |recs|
  {
    hide H.PlaceOf;
    if recs != [] {
      FollowsGrows(w.flight, more, i, off, recs[0]);
      var p := Follows(w.flight, i, off, recs[0]).value;
      hide Follows;
      OriginsFrame(w, w', more, p.0, p.1, recs[1..]);
    }
  }

  lemma FollowsGrows(flight: seq<OutMsg>, more: seq<OutMsg>, i: nat, off: nat, rec: Record)
    requires Follows(flight, i, off, rec).Some?
    ensures Follows(flight + more, i, off, rec) == Follows(flight, i, off, rec) && i < |flight|
  {}

  /** The log stays, or is empty. */
  lemma QuietLog(h: H.History, h': H.History, more: seq<OutMsg>)
    requires LogOk(h) && H.Extends(h, h') && Tile(h.w.flight, 0, 0, h.w.log).Some?
    requires h'.w.log == [] || (
               && h'.w.log == h.w.log && h'.w.flight == h.w.flight + more
               && forall x | 0 <= x <= |h.w.flight| :: H.PlaceOf(h'.w, x) == H.PlaceOf(h.w, x))
    ensures LogOk(h')
  {
    hide Tile, H.PlaceOf;
    if h'.w.log != [] {
      OriginsFrame(h.w, h'.w, more, 0, 0, h.w.log);
      hide H.Origins;
      forall m | 0 <= m < |h'.w.log| ensures Logged(h', m) {
        assert Logged(h, m);
        var j: nat :| LoggedAt(h, m, j);
        assert LoggedAt(h', m, j);
      }
    }
  }

  lemma SamePlaces(w: Writer, w': Writer)
    requires w'.flight == w.flight && |w'.transcript| == |w.transcript|
    ensures forall x | 0 <= x <= |w.flight| :: H.PlaceOf(w', x) == H.PlaceOf(w, x)
  {}

  lemma PacketLog(h: H.History, accepted: bool)
    requires H.HistoryOk(h) && LogOk(h) && h.w.written < |h.w.flight| && H.Step(h, Packet(accepted)).Some?
    ensures LogOk(H.Step(h, Packet(accepted)).value)
  {
    var h' := H.Step(h, Packet(accepted)).value;
    var recs := PacketRecords(h, accepted);
    H.StepExtends(h, Packet(accepted));
    var w := h.w;
    assert Tile(w.flight, 0, 0, w.log) == Some((w.written, w.offset)) && |h.from| == |w.sealed|;
    SamePlaces(w, h'.w);
    assert w.flight + [] == w.flight;
    hide H.HistoryOk, H.Step, Tile, H.PlaceOf, LogOk;
    if accepted {
      OriginsAppend(w, 0, 0, w.log, recs);
      TileAppend(w.flight, 0, 0, w.log, recs);
      OriginsFrame(w, h'.w, [], 0, 0, w.log + recs);
      AppendedLog(h, h', recs, H.Origins(w, w.written, w.offset, recs));
    } else {
      QuietLog(h, h', []);
    }
  }

  lemma AppendedLog(h: H.History, h': H.History, recs: seq<Record>, origins: seq<nat>)
    requires LogOk(h) && |h.from| == |h.w.sealed| && |origins| == |recs|
    requires h'.w.log == h.w.log + recs && h'.w.sealed == h.w.sealed + recs && h'.from == h.from + origins
    requires LogOrigins(h'.w) == LogOrigins(h.w) + origins
    ensures LogOk(h')
  {
    hide LogOrigins;
    forall m | 0 <= m < |h'.w.log| ensures Logged(h', m) {
      if m < |h.w.log| {
        assert Logged(h, m);
        var j: nat :| LoggedAt(h, m, j);
        assert LoggedAt(h', m, j);
      } else {
        assert LoggedAt(h', m, |h.w.sealed| + (m - |h.w.log|));
      }
    }
  }

  lemma PacketRecords(h: H.History, accepted: bool) returns (recs: seq<Record>)
    requires H.HistoryOk(h) && h.w.written < |h.w.flight| && H.Step(h, Packet(accepted)).Some?
    ensures var (w, w') := (h.w, H.Step(h, Packet(accepted)).value.w);
            && w'.sealed == w.sealed + recs && w'.flight == w.flight && w'.transcript == w.transcript
            && H.Step(h, Packet(accepted)).value.from == h.from + H.Origins(w, w.written, w.offset, recs)
            && Tile(w.flight, w.written, w.offset, recs).Some?
            && w'.log == if accepted then w.log + recs else w.log
  {
    hide SealPacket, NumbersOk, Tile, TotalLen, IsMessage, Parsed, TailOk, H.Origins;
    PacketSpec(h.w);
    recs := SealPacket(h.w).1.value;
    assert H.NewRecords(h.w, h.w.(sealed := h.w.sealed + recs)) == recs;
  }

  lemma AddLog(h: H.History, e: Event, isCcs: bool, data: bytes)
    requires H.HistoryOk(h) && LogOk(h) && H.Step(h, e).Some?
    requires (H.Step(h, e).value.w, true) == AddOutgoing(h.w, isCcs, data)
    ensures LogOk(H.Step(h, e).value)
  {
    var h' := H.Step(h, e).value;
    H.StepExtends(h, e);
    assert Tile(h.w.flight, 0, 0, h.w.log).Some?;
    var m := OutMsg(data, Epoch(h.w.gen), isCcs);
    hide H.HistoryOk, H.Step, Tile;
    if !h.w.complete {
      forall x | 0 <= x <= |h.w.flight| ensures H.PlaceOf(h'.w, x) == H.PlaceOf(h.w, x) {
        PlaceGrows(h.w, h'.w, m, x);
      }
    }
    QuietLog(h, h', [m]);
  }

  lemma OtherLog(h: H.History, e: Event)
    requires H.HistoryOk(h) && LogOk(h) && H.Step(h, e).Some? && !e.AddChangeCipherSpec? && !e.AddMessage?
    requires e.Packet? ==> h.w.written >= |h.w.flight|
    ensures LogOk(H.Step(h, e).value)
  {
    var h' := H.Step(h, e).value;
    H.StepExtends(h, e);
    OtherEffect(h.w, e);
    assert h.w.flight + [] == h.w.flight && Tile(h.w.flight, 0, 0, h.w.log).Some?;
    hide H.HistoryOk, Tile, LogOk;
    if h'.w.log != [] { SamePlaces(h.w, h'.w); }
    QuietLog(h, h', []);
  }

  lemma OtherEffect(w: Writer, e: Event)
    requires Step(w, e).Some? && !e.AddChangeCipherSpec? && !e.AddMessage?
    requires e.Packet? ==> w.written >= |w.flight|
    ensures var w' := Step(w, e).value;
            w'.log == [] || (w'.log == w.log && w'.flight == w.flight && w'.transcript == w.transcript)
  {
    hide CiphertextLen;
  }

  lemma StepKeepsLog(h: H.History, e: Event)
    requires H.HistoryOk(h) && LogOk(h) && H.Step(h, e).Some?
    ensures LogOk(H.Step(h, e).value)
  {
    hide H.HistoryOk, LogOk, Message, AddOutgoing;
    if e.Packet? && h.w.written < |h.w.flight| {
      PacketLog(h, e.accepted);
    } else if e.AddChangeCipherSpec? {
      AddLog(h, e, true, []);
    } else if e.AddMessage? {
      AddLog(h, e, false, Message(e.typ, h.w.writeSeq, e.body));
    } else {
      OtherLog(h, e);
    }
  }
}
