/** A sender together with the message each sealed record belongs to.  Message
    numbers have 16 bits and are reused; what this module keeps is the order
    between the reuses: once N later messages exist, nothing more is sealed for
    a message, under any keys. */
module DtlsHistory {
  import opened Bytes
  import opened Reassembly
  import opened DtlsWire
  import opened DtlsWriter
  import opened DtlsFlight

  /** from[i] is the place in the transcript of the message record i belongs to,
      and born[k] the write generation in which message k was queued. */
  datatype History = History(w: Writer, from: seq<nat>, born: seq<nat>)

  function Start(): History { History(DtlsWriter.Start(), [], []) }

  function PlaceOf(w: Writer, i: nat): nat
    requires i <= |w.flight|
  {
    if Place(w, i) < 0 then 0 else Place(w, i)
  }

  /** The messages a run of records was cut from. */
  function Origins(w: Writer, i: nat, off: nat, recs: seq<Record>): (r: seq<nat>)
    ensures |r| == |recs|
    decreases |recs|
  {
    if recs == [] then []
    else
      match Follows(w.flight, i, off, recs[0])
      case None => seq(|recs|, _ => 0)
      case Some((i', off')) => [PlaceOf(w, i)] + Origins(w, i', off', recs[1..])
  }

  function NewRecords(w: Writer, w': Writer): seq<Record> {
    if |w.sealed| <= |w'.sealed| then w'.sealed[|w.sealed|..] else []
  }

  function NewMessages(w: Writer, w': Writer): nat {
    if |w.transcript| <= |w'.transcript| then |w'.transcript| - |w.transcript| else 0
  }

  function Step(h: History, e: Event): Option<History> {
    match DtlsWriter.Step(h.w, e)
    case None => None
    case Some(w') =>
      var recs := NewRecords(h.w, w');
      Some(History(w',
                   h.from + if e.Packet? then Origins(h.w, h.w.written, h.w.offset, recs) else seq(|recs|, _ => 0),
                   h.born + seq(NewMessages(h.w, w'), _ => h.w.gen)))
  }

  /** rec carries a slice of the message, under the message's own header. */
  predicate PieceOf(data: bytes, rec: Record) {
    match (Parsed(data, 0), if rec.body.Sealed? then ParseFragment(rec.body.plain) else Fail)
    case (Some((h, body)), Ok((fh, fb), rest)) =>
      && rest == [] && fh == Header(h.typ, h.msgLen, h.seqNum, fh.fragOff, |fb|)
      && h.msgLen == |body| && fh.fragOff + |fb| <= |body| && fb == body[fh.fragOff..fh.fragOff + |fb|]
    case _ => false
  }

  /** Record i belongs to its message, and later messages came no earlier than
      the record's keys. */
  predicate RecordOk(h: History, i: nat)
    requires i < |h.w.sealed| && |h.from| == |h.w.sealed| && |h.born| == |h.w.transcript|
  {
    var rec := h.w.sealed[i];
    rec.typ == HANDSHAKE ==>
      && rec.body.Sealed?
      && h.from[i] < |h.w.transcript|
      && PieceOf(h.w.transcript[h.from[i]], rec)
      && forall k | h.from[i] + N <= k < |h.born| :: rec.body.gen <= h.born[k]
  }

  /** A record of a message N or more further on was sealed later, and its keys
      are no older. */
  predicate InOrder(h: History, i: nat, j: nat)
    requires i < |h.w.sealed| && j < |h.w.sealed| && |h.from| == |h.w.sealed|
  {
    var (a, b) := (h.w.sealed[i], h.w.sealed[j]);
    a.typ == HANDSHAKE && b.typ == HANDSHAKE && h.from[i] + N <= h.from[j] ==>
      i < j && (a.body.Sealed? && b.body.Sealed? ==> a.body.gen <= b.body.gen)
  }

  predicate FlightBorn(h: History)
    requires |h.born| == |h.w.transcript|
  {
    forall i | 0 <= i < |h.w.flight| && !h.w.flight[i].isCcs ::
      0 <= Place(h.w, i) < |h.born| && h.w.flight[i].epoch == Epoch(h.born[Place(h.w, i)])
  }

  predicate HistoryOk(h: History) {
    && WriterOk(h.w)
    && |h.from| == |h.w.sealed| && |h.born| == |h.w.transcript|
    && (forall k | 0 <= k < |h.born| :: h.born[k] <= h.w.gen)
    && FlightBorn(h)
    && (forall i | 0 <= i < |h.from| :: RecordOk(h, i))
    && (forall i, j | 0 <= i < |h.from| && 0 <= j < |h.from| :: InOrder(h, i, j))
  }

  /** Under the same keys the later record has the higher number. */
  lemma LaterMessageHigherNumber(h: History, i: nat, j: nat)
    requires HistoryOk(h) && i < |h.from| && j < |h.from|
    requires h.w.sealed[i].typ == HANDSHAKE && h.w.sealed[j].typ == HANDSHAKE
    requires h.from[i] + N <= h.from[j]
    ensures h.w.sealed[i].body.Sealed? && h.w.sealed[j].body.Sealed?
    ensures h.w.sealed[i].body.gen <= h.w.sealed[j].body.gen
    ensures h.w.sealed[i].body.gen == h.w.sealed[j].body.gen ==> h.w.sealed[i].number < h.w.sealed[j].number
  {
    hide Parsed, Tile, PosOk, TailOk, PieceOf, FlightBorn, NumberOk;
    assert RecordOk(h, i) && RecordOk(h, j) && InOrder(h, i, j);
    assert Ascending(h.w.sealed[i], h.w.sealed[j]);
  }

  /** What a record of a packet shows: it is a piece of the queued message at p. */
  predicate CutFrom(w: Writer, p: nat, rec: Record) {
    && p < |w.flight| && rec.body.Sealed? && Epoch(rec.body.gen) == w.flight[p].epoch
    && (rec.typ == HANDSHAKE ==> !w.flight[p].isCcs && PieceOf(w.flight[p].data, rec))
  }

  lemma FollowsCut(w: Writer, i: nat, off: nat, rec: Record)
    requires Follows(w.flight, i, off, rec).Some?
    ensures CutFrom(w, i, rec)
  {
    hide ParseFragment;
  }

  lemma {:induction false} OriginsCut(w: Writer, i: nat, off: nat, recs: seq<Record>, m: nat) returns (p: nat)
    requires Tile(w.flight, i, off, recs).Some? && m < |recs|
    ensures p < |w.flight| && CutFrom(w, p, recs[m]) && Origins(w, i, off, recs)[m] == PlaceOf(w, p)
    decreases |recs|
  {
    FollowsCut(w, i, off, recs[0]);
    assert i < |w.flight|;
    hide Follows, CutFrom, PlaceOf;
    match Follows(w.flight, i, off, recs[0]) {
      case Some((i', off')) =>
        if m == 0 {
          p := i;
        } else {
          p := OriginsCut(w, i', off', recs[1..], m - 1);
        }
    }
  }

  lemma PlaceRecent(w: Writer, i: nat)
    requires TailOk(w) && |w.flight| <= N && i < |w.flight|
    ensures PlaceOf(w, i) + N >= |w.transcript| && PlaceOf(w, i) == Place(w, i)
    ensures !w.flight[i].isCcs ==> Place(w, i) < |w.transcript| && w.flight[i].data == w.transcript[Place(w, i)]
  {}

  /** Keys that match the epoch of a message are no older than the message. */
  lemma NotOlder(gen: nat, born: nat, now: nat)
    requires now - 1 <= gen <= now && born <= now && Epoch(gen) == Epoch(born)
    ensures born <= gen
  {}

  /** What a packet changes. */
  lemma PacketEffect(h: History, accepted: bool) returns (recs: seq<Record>)
    requires WriterOk(h.w) && h.w.written < |h.w.flight| && Step(h, Packet(accepted)).Some?
    ensures var (w, w') := (h.w, Step(h, Packet(accepted)).value.w);
            && w'.sealed == w.sealed + recs
            && w'.flight == w.flight && w'.transcript == w.transcript && w'.gen == w.gen
            && Step(h, Packet(accepted)).value == History(w', h.from + Origins(w, w.written, w.offset, recs), h.born)
            && Tile(w.flight, w.written, w.offset, recs).Some?
            && forall i | 0 <= i < |recs| :: Recent(w, recs[i])
  {
    hide SealPacket, NumbersOk, Tile, TotalLen, IsMessage, Parsed, TailOk, Origins;
    PacketSpec(h.w);
    recs := SealPacket(h.w).1.value;
    assert NewRecords(h.w, h.w.(sealed := h.w.sealed + recs)) == recs;
    assert h.born + [] == h.born;
  }

  /** The records a packet adds are in order with all there were. */
  lemma PacketKeepsHistory(h: History, accepted: bool)
    requires HistoryOk(h) && h.w.written < |h.w.flight| && Step(h, Packet(accepted)).Some?
    ensures HistoryOk(Step(h, Packet(accepted)).value)
  {
    var h' := Step(h, Packet(accepted)).value;
    var w := h.w;
    PacketKeepsOk(w, accepted);
    var recs := PacketEffect(h, accepted);
    hide WriterOk, Step, Tile, PieceOf, FlightBorn, Origins;
    NewRecordsOk(h, h', recs);
    FlightBornFrame(h, h');
    AppendKeeps(h, h');
  }

  lemma NewRecordsOk(h: History, h': History, recs: seq<Record>)
    requires HistoryOk(h) && h'.born == h.born
    requires h'.w.transcript == h.w.transcript && h'.w.sealed == h.w.sealed + recs
    requires h'.from == h.from + Origins(h.w, h.w.written, h.w.offset, recs)
    requires Tile(h.w.flight, h.w.written, h.w.offset, recs).Some?
    requires forall i | 0 <= i < |recs| :: Recent(h.w, recs[i])
    ensures forall i | |h.from| <= i < |h'.from| :: NewOk(h', i)
  {
    hide WriterOk, RecordOk, InOrder, Origins, Tile, FlightBorn, NewOk, Recent;
    forall i | |h.from| <= i < |h'.from| ensures NewOk(h', i) {
      NewRecordOk(h, h', i, recs, i - |h.from|);
    }
  }

  lemma NewRecordOk(h: History, h': History, i: nat, recs: seq<Record>, m: nat)
    requires WriterOk(h.w) && |h.born| == |h.w.transcript| && FlightBorn(h)
    requires forall k | 0 <= k < |h.born| :: h.born[k] <= h.w.gen
    requires h'.born == h.born && h'.w.transcript == h.w.transcript
    requires i < |h'.from| == |h'.w.sealed| && m < |recs|
    requires h'.w.sealed[i] == recs[m] && Recent(h.w, recs[m])
    requires Tile(h.w.flight, h.w.written, h.w.offset, recs).Some?
    requires h'.from[i] == Origins(h.w, h.w.written, h.w.offset, recs)[m]
    ensures NewOk(h', i)
  {
    hide WriterOk, Tile, PieceOf, FlightBorn, Origins, NewOk, Recent, CutFrom, TailOk, Place, PlaceOf;
    var p := OriginsCut(h.w, h.w.written, h.w.offset, recs, m);
    WriterPlace(h.w, p);
    PacketRecordOk(h, h', i, p);
  }

  lemma WriterPlace(w: Writer, i: nat)
    requires WriterOk(w) && i < |w.flight|
    ensures TailOk(w) && PlaceOf(w, i) + N >= |w.transcript| && PlaceOf(w, i) == Place(w, i)
  {
    PlaceRecent(w, i);
  }

  lemma FlightBornFrame(h: History, h': History)
    requires |h.born| == |h.w.transcript| && FlightBorn(h)
    requires h'.born == h.born && h'.w.transcript == h.w.transcript && h'.w.flight == h.w.flight
    ensures FlightBorn(h')
  {
    hide Count;
    forall i | 0 <= i < |h'.w.flight| && !h'.w.flight[i].isCcs
      ensures 0 <= Place(h'.w, i) < |h'.born| && h'.w.flight[i].epoch == Epoch(h'.born[Place(h'.w, i)])
    {
      assert Place(h'.w, i) == Place(h.w, i);
    }
  }

  /** A handshake record of one of the last N messages, under keys no older than
      the message. */
  predicate NewOk(h: History, i: nat)
    requires i < |h.w.sealed| && |h.from| == |h.w.sealed| && |h.born| == |h.w.transcript|
  {
    var rec := h.w.sealed[i];
    rec.typ == HANDSHAKE ==>
      && rec.body.Sealed?
      && |h.w.transcript| - N <= h.from[i] < |h.w.transcript|
      && PieceOf(h.w.transcript[h.from[i]], rec)
      && h.born[h.from[i]] <= rec.body.gen
  }

  lemma PacketRecordOk(h: History, h': History, i: nat, p: nat)
    requires |h.born| == |h.w.transcript| && FlightBorn(h) && TailOk(h.w)
    requires forall k | 0 <= k < |h.born| :: h.born[k] <= h.w.gen
    requires h'.born == h.born && h'.w.transcript == h.w.transcript
    requires |h'.from| == |h'.w.sealed| && i < |h'.from|
    requires CutFrom(h.w, p, h'.w.sealed[i]) && Recent(h.w, h'.w.sealed[i])
    requires h'.from[i] == PlaceOf(h.w, p) == Place(h.w, p) && PlaceOf(h.w, p) + N >= |h.w.transcript|
    ensures NewOk(h', i)
  {
    hide PieceOf, Count;
    var rec := h'.w.sealed[i];
    if rec.typ == HANDSHAKE {
      NotOlder(rec.body.gen, h.born[Place(h.w, p)], h.w.gen);
    }
  }

  /** Adding records of the last N messages keeps the order. */
  lemma AppendKeeps(h: History, h': History)
    requires HistoryOk(h) && WriterOk(h'.w) && h'.born == h.born
    requires h'.w.transcript == h.w.transcript && h'.w.gen == h.w.gen && FlightBorn(h')
    requires |h'.from| == |h'.w.sealed| && |h.from| <= |h'.from|
    requires h'.from[..|h.from|] == h.from && h'.w.sealed[..|h.from|] == h.w.sealed
    requires forall i | |h.from| <= i < |h'.from| :: NewOk(h', i)
    ensures HistoryOk(h')
  {
    hide WriterOk, PieceOf, FlightBorn;
    forall i | 0 <= i < |h'.from| ensures RecordOk(h', i) {
      if i < |h.from| {
        assert RecordOk(h, i) && h'.from[i] == h.from[i] && h'.w.sealed[i] == h.w.sealed[i];
      } else {
        assert NewOk(h', i);
      }
    }
    forall i, j | 0 <= i < |h'.from| && 0 <= j < |h'.from| ensures InOrder(h', i, j) {
      if i < |h.from| {
        assert RecordOk(h, i) && h'.from[i] == h.from[i] && h'.w.sealed[i] == h.w.sealed[i];
        if j < |h.from| {
          assert InOrder(h, i, j) && h'.from[j] == h.from[j] && h'.w.sealed[j] == h.w.sealed[j];
        } else {
          assert NewOk(h', j);
        }
      } else {
        assert NewOk(h', i);
        if j < |h.from| {
          assert RecordOk(h, j) && h'.from[j] == h.from[j] && h'.w.sealed[j] == h.w.sealed[j];
        } else {
          assert NewOk(h', j);
        }
      }
    }
  }

  /** Steps that queue nothing and seal at most a record that is no handshake
      record. */
  lemma QuietKeepsHistory(h: History, h': History)
    requires HistoryOk(h) && WriterOk(h'.w) && h'.born == h.born
    requires h'.w.transcript == h.w.transcript && h'.w.gen >= h.w.gen
    requires h'.w.flight == h.w.flight || h'.w.flight == []
    requires |h.from| <= |h'.from| == |h'.w.sealed|
    requires h'.from[..|h.from|] == h.from && h'.w.sealed[..|h.from|] == h.w.sealed
    requires forall i | |h.from| <= i < |h'.from| :: h'.w.sealed[i].typ != HANDSHAKE
    ensures HistoryOk(h')
  {
    hide WriterOk, PieceOf, FlightBorn;
    if h'.w.flight == h.w.flight { FlightBornFrame(h, h'); } else { NoFlightBorn(h'); }
    forall i | 0 <= i < |h'.from| ensures RecordOk(h', i) {
      if i < |h.from| {
        assert RecordOk(h, i) && h'.from[i] == h.from[i] && h'.w.sealed[i] == h.w.sealed[i];
      }
    }
    forall i, j | 0 <= i < |h'.from| && 0 <= j < |h'.from| ensures InOrder(h', i, j) {
      if i < |h.from| && j < |h.from| {
        assert InOrder(h, i, j) && h'.from[i] == h.from[i] && h'.from[j] == h.from[j];
        assert h'.w.sealed[i] == h.w.sealed[i] && h'.w.sealed[j] == h.w.sealed[j];
      }
    }
  }

  lemma NoFlightBorn(h: History)
    requires |h.born| == |h.w.transcript| && h.w.flight == []
    ensures FlightBorn(h)
  {}

  /** A message queued now is younger than every key in use. */
  lemma AddKeepsHistory(h: History, h': History, isCcs: bool, data: bytes)
    requires HistoryOk(h) && WriterOk(h'.w)
    requires (h'.w, true) == AddOutgoing(h.w, isCcs, data)
    requires h'.from == h.from && h'.born == h.born + if isCcs then [] else [h.w.gen]
    ensures HistoryOk(h')
  {
    hide WriterOk, FlightBorn, RecordOk, InOrder;
    var w1 := if h.w.complete then Clear(h.w) else h.w;
    if h.w.complete { NoFlightBorn(h.(w := w1)); }
    AddFlightBorn(h.(w := w1), h', OutMsg(data, Epoch(h.w.gen), isCcs));
    YoungerKeeps(h, h', if isCcs then [] else [data]);
  }

  lemma YoungerKeeps(h: History, h': History, more: seq<bytes>)
    requires HistoryOk(h) && h'.from == h.from && h'.w.sealed == h.w.sealed
    requires h'.w.transcript == h.w.transcript + more
    requires h'.born == h.born + seq(|more|, _ => h.w.gen)
    ensures forall i | 0 <= i < |h'.from| :: RecordOk(h', i)
    ensures forall i, j | 0 <= i < |h'.from| && 0 <= j < |h'.from| :: InOrder(h', i, j)
  {
    forall i | 0 <= i < |h.from| ensures h.w.sealed[i].body.Sealed? ==> h.w.sealed[i].body.gen <= h.w.gen {
      assert NumberOk(h.w, h.w.sealed[i]);
    }
    hide WriterOk, PieceOf, FlightBorn;
    forall i | 0 <= i < |h'.from| ensures RecordOk(h', i) { assert RecordOk(h, i); }
    forall i, j | 0 <= i < |h'.from| && 0 <= j < |h'.from| ensures InOrder(h', i, j) { assert InOrder(h, i, j); }
  }

  lemma AddFlightBorn(h: History, h': History, m: OutMsg)
    requires |h.born| == |h.w.transcript| && FlightBorn(h)
    requires h'.w.flight == h.w.flight + [m] && m.epoch == Epoch(h.w.gen)
    requires h'.w.transcript == h.w.transcript + if m.isCcs then [] else [m.data]
    requires h'.born == h.born + if m.isCcs then [] else [h.w.gen]
    ensures FlightBorn(h')
  {
    hide Place;
    var n := |h.w.flight|;
    forall i | 0 <= i < |h'.w.flight| && !h'.w.flight[i].isCcs
      ensures 0 <= Place(h'.w, i) < |h'.born| && h'.w.flight[i].epoch == Epoch(h'.born[Place(h'.w, i)])
    {
      PlaceGrows(h.w, h'.w, m, if i < n then i else n);
    }
  }

  lemma AddStepKeeps(h: History, e: Event, data: bytes)
    requires HistoryOk(h) && Step(h, e).Some? && (e.AddChangeCipherSpec? || e.AddMessage?)
    requires data == if e.AddMessage? then Message(e.typ, h.w.writeSeq, e.body) else []
    ensures HistoryOk(Step(h, e).value)
  {
    hide WriterOk, PieceOf, FlightBorn, Message;
    var h' := Step(h, e).value;
    StepKeepsOk(h.w, e);
    assert NewRecords(h.w, h'.w) == [];
    assert h.from + [] == h.from;
    assert h'.born == h.born + if e.AddMessage? then [h.w.gen] else [];
    AddKeepsHistory(h, h', e.AddChangeCipherSpec?, data);
  }

  lemma OtherStepKeeps(h: History, e: Event)
    requires HistoryOk(h) && Step(h, e).Some? && !e.AddChangeCipherSpec? && !e.AddMessage?
    requires e.Packet? ==> h.w.written >= |h.w.flight|
    ensures HistoryOk(Step(h, e).value)
  {
    var h' := Step(h, e).value;
    StepKeepsOk(h.w, e);
    hide WriterOk, PieceOf, FlightBorn, CiphertextLen;
    assert h.born + [] == h.born;
    assert NewRecords(h.w, h'.w) == h'.w.sealed[|h.w.sealed|..];
    QuietKeepsHistory(h, h');
  }

  lemma StepKeepsHistory(h: History, e: Event)
    requires HistoryOk(h) && Step(h, e).Some?
    ensures HistoryOk(Step(h, e).value)
  {
    hide HistoryOk, Step, Message;
    if e.Packet? && h.w.written < |h.w.flight| {
      PacketKeepsHistory(h, e.accepted);
    } else if e.AddChangeCipherSpec? || e.AddMessage? {
      AddStepKeeps(h, e, if e.AddMessage? then Message(e.typ, h.w.writeSeq, e.body) else []);
    } else {
      OtherStepKeeps(h, e);
    }
  }

  lemma StartKeepsHistory()
    ensures HistoryOk(Start())
  {
    StartOk();
  }

  predicate Extends(h: History, h': History) {
    h.w.sealed <= h'.w.sealed && h.from <= h'.from && h.w.transcript <= h'.w.transcript
  }

  lemma StepExtends(h: History, e: Event)
    requires HistoryOk(h) && Step(h, e).Some?
    ensures Extends(h, Step(h, e).value)
  {
    hide NumbersOk, Tile, TailOk, PosOk, Message, RecordOk, InOrder, FlightBorn, Follows, CiphertextLen, Origins;
    if e.Packet? && h.w.written < |h.w.flight| {
      var recs := PacketEffect(h, e.accepted);
    }
  }

  lemma Lengths(h: History)
    requires HistoryOk(h)
    ensures |h.from| == |h.w.sealed| && |h.born| == |h.w.transcript|
  {}

  lemma FromBelow(h: History, i: nat)
    requires HistoryOk(h) && i < |h.from| && h.w.sealed[i].typ == HANDSHAKE
    ensures h.w.sealed[i].body.Sealed? && h.from[i] < |h.w.transcript|
    ensures PieceOf(h.w.transcript[h.from[i]], h.w.sealed[i])
    ensures IsMessage(h.w.transcript[h.from[i]], h.from[i] % SEQ16)
  {
    hide NumbersOk, Parsed, ParseFragment, Tile, TailOk, FlightBorn, InOrder;
    assert RecordOk(h, i);
  }

  lemma ExtendsParts(h: History, h': History)
    requires Extends(h, h')
    ensures h.w.sealed <= h'.w.sealed && h.from <= h'.from && h.w.transcript <= h'.w.transcript
  {}

  lemma ExtendsItself(h: History)
    ensures Extends(h, h)
  {}
}
