/** What arrives is enough.  In every run, a byte once read stays until its message
    is taken; when every byte of a message has been read the message is complete;
    and a flight whose records arrive is delivered. */
module DtlsProgress {
  import opened Bytes
  import opened Reassembly
  import opened ReplayWindow
  import opened DtlsWire
  import opened DtlsReader
  import opened DtlsFlight
  import opened DtlsSystem
  import opened DtlsLog
  import W = DtlsWriter
  import H = DtlsHistory

  // ---------- What a slot holds only grows ----------

  predicate Grows(a: Option<Partial>, b: Option<Partial>) {
    match a
    case None => true
    case Some(p) =>
      match b
      case None => false
      case Some(q) =>
        && q.seqNum == p.seqNum && |q.body| == |p.body|
        && forall i | 0 <= i < |p.body| && p.body[i].Some? :: q.body[i].Some?
  }

  lemma GrowsOn(a: Option<Partial>, b: Option<Partial>, c: Option<Partial>)
    requires Grows(a, b) && Grows(b, c)
    ensures Grows(a, c)
  {}

  lemma AcceptGrows(st: Reader, h: Header, body: bytes, maxLen: nat, q: nat)
    requires RingOk(st) && |body| == h.fragLen && q < N
    ensures Grows(st.slots[q], Accept(st, h, body, maxLen).0.slots[q])
  {}

  lemma {:induction false} FragmentsGrow(st: Reader, s: bytes, maxLen: nat, q: nat)
    requires RingOk(st) && q < N
    ensures Grows(st.slots[q], Fragments(st, s, maxLen).0.slots[q])
    decreases |s|
  {
    RingSize(st);
    hide Accept, RingOk, Grows;
    SameGrows(st.slots[q]);
    if s != [] {
      match ParseFragment(s) {
        case Fail =>
        case Ok((h, body), rest) =>
          AcceptGrows(st, h, body, maxLen, q);
          AcceptKeepsRing(st, h, body, maxLen);
          match Accept(st, h, body, maxLen) {
            case (st', alert) =>
              if alert.None? {
                FragmentsGrow(st', rest, maxLen, q);
                GrowsOn(st.slots[q], st'.slots[q], Fragments(st', rest, maxLen).0.slots[q]);
              }
          }
      }
    }
  }

  lemma SameGrows(a: Option<Partial>)
    ensures Grows(a, a)
  {}

  lemma OpenGrows(st: Reader, rec: Record, maxLen: nat, q: nat)
    requires RingOk(st) && q < N
    ensures var st' := OpenHandshake(st, rec, maxLen).0;
            && |st'.slots| == N && st'.readSeq == st.readSeq && Grows(st.slots[q], st'.slots[q])
  {
    RingSize(st);
    SameGrows(st.slots[q]);
    hide StaleTest, Grows, Fragments;
    match OpenRecord(st, rec) {
      case (st1, status, plain) =>
        if status == Success && rec.typ == HANDSHAKE {
          RingIgnores(st, st1.window, st1.ccs);
          hide RingOk;
          FragmentsGrow(st1, plain, maxLen, q);
          FragmentsKeepRing(st1, plain, maxLen);
        }
    }
  }

  // ---------- A byte once known stays ----------

  /** Message k has been taken, or has its slot, with byte x in it if it has that
      many. */
  predicate Known(s: System, k: nat, x: nat)
    requires |s.r.slots| == N
  {
    k < |s.delivered| ||
    match s.r.slots[k % SEQ16 % N]
    case None => false
    case Some(p) => Index(s, p) == k && (x < |p.body| ==> p.body[x].Some?)
  }

  lemma ReceiveKeepsKnown(s: System, rec: Record, maxLen: nat, k: nat, x: nat)
    requires RingOk(s.r) && Known(s, k, x)
    ensures Known(Receive(s, rec, maxLen), k, x)
  {
    RingSize(s.r);
    hide RingOk, OpenHandshake;
    OpenGrows(s.r, rec, maxLen, k % SEQ16 % N);
  }

  function Taken(s: System): System
    requires |s.r.slots| == N && s.r.hasMessage && CurrentComplete(s.r)
  {
    s.(r := NextMessage(s.r), delivered := s.delivered + [s.r.slots[s.r.readSeq % N].value])
  }

  /** Taking the current message leaves the others where they are. */
  lemma OthersStay(s: System, k: nat)
    requires RingOk(s.r) && s.r.readSeq == |s.delivered| % SEQ16 && s.r.hasMessage && CurrentComplete(s.r)
    requires |s.delivered| < k
    requires match s.r.slots[k % SEQ16 % N]
             case None => false
             case Some(p) => Index(s, p) == k
    ensures Taken(s).r.slots[k % SEQ16 % N] == s.r.slots[k % SEQ16 % N]
    ensures Index(Taken(s), s.r.slots[k % SEQ16 % N].value) == k
  {
    RingSize(s.r);
    OthersWithinNumbers(s.r);
    SameResidue(s.r, s.r.readSeq);
    hide RingOk, Complete;
  }

  lemma DeliverKeepsKnown(s: System, k: nat, x: nat)
    requires RingOk(s.r) && s.r.readSeq == |s.delivered| % SEQ16 && s.r.hasMessage && CurrentComplete(s.r)
    requires Known(s, k, x)
    ensures Known(Taken(s), k, x)
  {
    if |s.delivered| < k { OthersStay(s, k); }
    hide RingOk, CurrentComplete, NextMessage;
  }

  lemma StepKeepsKnown(s: System, e: Event, k: nat, x: nat)
    requires SystemOk(s) && Step(s, e).Some? && Known(s, k, x)
    ensures Known(Step(s, e).value, k, x)
  {
    assert RingOk(s.r) && |s.r.slots| == N;
    match e {
      case Arrive(i, maxLen) =>
        hide SystemOk;
        if i < |s.h.w.sealed| { ReceiveKeepsKnown(s, s.h.w.sealed[i], maxLen, k, x); }
      case Noise(typ, number, maxLen) =>
        hide SystemOk;
        ReceiveKeepsKnown(s, Record(typ, number, Garbage), maxLen, k, x);
      case Deliver =>
        assert s.r.readSeq == |s.delivered| % SEQ16;
        hide SystemOk, RingOk, CurrentComplete, NextMessage, Known;
        if s.r.hasMessage && CurrentComplete(s.r) { DeliverKeepsKnown(s, k, x); }
      case Send(event) => hide SystemOk, H.Step;
      case Peek => hide SystemOk, CurrentComplete;
      case ReadKeys => hide SystemOk, HasUnprocessed;
    }
  }

  // ---------- A record that is read leaves its bytes ----------

  /** The window holds nothing but numbers accepted under the read keys. */
  predicate SeenOk(s: System) {
    forall n | n in s.r.window :: (s.r.gen, n) in s.accepted
  }

  lemma StepKeepsSeen(s: System, e: Event)
    requires RingOk(s.r) && SeenOk(s) && Step(s, e).Some?
    ensures SeenOk(Step(s, e).value)
  {
    RingSize(s.r);
    match e {
      case Arrive(i, maxLen) => if i < |s.h.w.sealed| { ReceiveKeepsSeen(s, s.h.w.sealed[i], maxLen); }
      case Noise(typ, number, maxLen) => ReceiveKeepsSeen(s, Record(typ, number, Garbage), maxLen);
      case Send(event) => hide H.Step;
      case _ => hide CurrentComplete, HasUnprocessed;
    }
  }

  lemma ReceiveKeepsSeen(s: System, rec: Record, maxLen: nat)
    requires RingOk(s.r) && SeenOk(s)
    ensures SeenOk(Receive(s, rec, maxLen))
  {
    RingSize(s.r);
    var (st1, status, plain) := OpenRecord(s.r, rec);
    RingIgnores(s.r, st1.window, st1.ccs);
    hide RingOk, StaleTest, Fragments;
    FragmentsKeepRing(st1, plain, maxLen);
  }

  /** The record's number was not accepted under these keys before, and is within
      64 of all that were. */
  predicate Unseen(s: System, rec: Record) {
    && (s.r.gen, rec.number) !in s.accepted
    && forall a | a in s.accepted && a.0 == s.r.gen :: a.1 < rec.number + WINDOW
  }

  /** Message k has been taken, or is one of the next N, before the 16-bit message
      numbers start again. */
  predicate Near(s: System, k: nat) {
    k < |s.delivered| || (k < |s.delivered| + N && k / SEQ16 == |s.delivered| / SEQ16)
  }

  /** Sealed record i is read when it arrives now: the receiver has the keys it was
      sealed with, its number is fresh, its message is near and no longer than
      allowed, and in epoch 1 it is the next. */
  predicate Reads(s: System, i: nat, maxLen: nat) {
    && i < |s.h.w.sealed| && i < |s.h.from| && s.h.from[i] < |s.h.w.transcript|
    && var (rec, k) := (s.h.w.sealed[i], s.h.from[i]);
       && rec.typ == HANDSHAKE && rec.body.Sealed? && rec.body.gen == s.r.gen && |rec.body.plain| <= MAX_PLAIN
       && Unseen(s, rec) && Near(s, k) && (Epoch(s.r.gen) == 1 ==> k <= |s.delivered|)
       && |s.h.w.transcript[k]| <= HM_HEADER_LENGTH + maxLen
  }

  /** The record carries byte x of its message, if that has so many. */
  predicate Carries(rec: Record, x: nat) {
    rec.body.Sealed? &&
    match ParseFragment(rec.body.plain)
    case Fail => false
    case Ok((f, body), _) => f.fragOff <= x < f.fragOff + |body| || x >= f.msgLen
  }

  /** What a fragment in the window leaves, when its slot is free or its own. */
  lemma AcceptLearns(st: Reader, f: Header, body: bytes, maxLen: nat, x: nat)
    requires RingOk(st) && FitsHeader(f) && |body| == f.fragLen && st.readSeq <= f.seqNum < st.readSeq + N
    requires match st.slots[f.seqNum % N]
             case None => true
             case Some(p) => p.typ == f.typ && |p.body| == f.msgLen
    requires HeaderFault(st, f, maxLen).None?
    requires f.fragOff <= x < f.fragOff + |body| || x >= f.msgLen
    ensures match Accept(st, f, body, maxLen).0.slots[f.seqNum % N]
            case None => false
            case Some(p) => p.seqNum == f.seqNum && |p.body| == f.msgLen && (x < |p.body| ==> p.body[x].Some?)
  {
    SameResidue(st, f.seqNum);
  }

  /** The record layer lets the record through. */
  lemma ReadOpens(s: System, i: nat, maxLen: nat)
    requires SystemOk(s) && SeenOk(s) && Reads(s, i, maxLen)
    ensures var rec := s.h.w.sealed[i];
            OpenRecord(s.r, rec) == (s.r.(window := s.r.window + {rec.number}), Success, rec.body.plain)
  {
    var rec := s.h.w.sealed[i];
    NumberEpoch(s.h.w, i);
    hide SystemOk;
    forall r | r in s.r.window ensures r < rec.number + WINDOW { assert (s.r.gen, r) in s.accepted; }
    assert !StaleTest(s.r.window, rec.number);
  }

  lemma NumberEpoch(w: W.Writer, i: nat)
    requires NumbersOk(w) && i < |w.sealed| && w.sealed[i].body.Sealed?
    ensures EpochOf(w.sealed[i].number) == Epoch(w.sealed[i].body.gen)
  {
    assert NumberOk(w, w.sealed[i]);
    var t :| 0 <= t < SEQ48 && NumberedBy(w, w.sealed[i], t);
  }

  /** Its message has the number and the slot it has in the transcript. */
  lemma ReadFits(s: System, i: nat, maxLen: nat)
    requires SystemOk(s) && Reads(s, i, maxLen) && s.h.from[i] >= |s.delivered|
    ensures var (rec, k) := (s.h.w.sealed[i], s.h.from[i]);
            var f := ParseFragment(rec.body.plain);
            && f.Ok? && f.rest == [] && FitsHeader(f.value.0) && |f.value.1| == f.value.0.fragLen
            && f.value.0.seqNum == k % SEQ16 == s.r.readSeq + (k - |s.delivered|)
            && HeaderFault(s.r, f.value.0, maxLen).None?
            && match s.r.slots[k % SEQ16 % N]
               case None => true
               case Some(p) => Index(s, p) == k && p.typ == f.value.0.typ && |p.body| == f.value.0.msgLen
  {
    var k := s.h.from[i];
    H.FromBelow(s.h, i);
    SameRound(k, |s.delivered|);
    SameResidue(s.r, k % SEQ16);
    if s.r.slots[k % SEQ16 % N].Some? { SlotAgrees(s, k % SEQ16 % N); }
    hide H.HistoryOk, RingOk, AcceptedOk, DeliveredTrue, ParseFragment, Begun;
    WholeLength(s.h.w.transcript[k]);
  }

  lemma SameRound(k: nat, d: nat)
    requires d <= k && k / SEQ16 == d / SEQ16
    ensures k % SEQ16 == d % SEQ16 + (k - d)
  {}

  lemma WholeLength(data: bytes)
    requires Parsed(data, 0).Some?
    ensures |data| == HM_HEADER_LENGTH + |Parsed(data, 0).value.1|
  {
    ParsedIsMessage(data);
    Limits();
  }

  lemma ReadLearns(s: System, i: nat, maxLen: nat, x: nat)
    requires SystemOk(s) && SeenOk(s) && Reads(s, i, maxLen) && Carries(s.h.w.sealed[i], x)
    ensures Known(Receive(s, s.h.w.sealed[i], maxLen), s.h.from[i], x)
  {
    var rec, k := s.h.w.sealed[i], s.h.from[i];
    assert |s.r.slots| == N && RingOk(s.r);
    if k >= |s.delivered| {
      ReadOpens(s, i, maxLen);
      ReadFits(s, i, maxLen);
      var st1 := s.r.(window := s.r.window + {rec.number});
      RingIgnores(s.r, st1.window, st1.ccs);
      hide SystemOk, RingOk, StaleTest, OpenRecord, ParseFragment, Unseen, Near;
      var (f, body) := ParseFragment(rec.body.plain).value;
      OneFragment(st1, rec.body.plain, f, body, maxLen);
      AcceptLearns(st1, f, body, maxLen, x);
      FragmentsKeepRing(st1, rec.body.plain, maxLen);
    }
  }

  // ---------- Runs ----------

  predicate LearnsNow(s: System, e: Event, k: nat, x: nat) {
    && e.Arrive? && Reads(s, e.i, e.maxLen)
    && s.h.from[e.i] == k && Carries(s.h.w.sealed[e.i], x)
  }

  /** At some point of the run a record that carries byte x of message k arrives and
      is read. */
  predicate Learned(s: System, es: seq<Event>, k: nat, x: nat)
    requires |s.r.slots| == N
    decreases |es|
  {
    && es != [] && Step(s, es[0]).Some?
    && (LearnsNow(s, es[0], k, x) || Learned(Step(s, es[0]).value, es[1..], k, x))
  }

  lemma {:induction false} RunLearns(s: System, es: seq<Event>, k: nat, x: nat)
    requires SystemOk(s) && SeenOk(s) && Paced(s, es) && Run(s, es).Some?
    requires Known(s, k, x) || Learned(s, es, k, x)
    ensures Known(Run(s, es).value, k, x)
    decreases |es|
  {
    assert RingOk(s.r);
    if es != [] {
      var s1 := Step(s, es[0]).value;
      DtlsSystem.StepKeepsOk(s, es[0]);
      StepKeepsSeen(s, es[0]);
      if Known(s, k, x) {
        StepKeepsKnown(s, es[0], k, x);
      } else if LearnsNow(s, es[0], k, x) {
        ReadLearns(s, es[0].i, es[0].maxLen, x);
      }
      hide SystemOk, SeenOk, Known, LearnsNow;
      RunLearns(s1, es[1..], k, x);
    }
  }

  /** Message k has been taken or can be. */
  predicate Ready(s: System, k: nat)
    requires |s.r.slots| == N
  {
    k < |s.delivered| ||
    match s.r.slots[k % SEQ16 % N]
    case None => false
    case Some(p) => Index(s, p) == k && Complete(p)
  }

  /** In every run in pace: once every byte of a message has arrived in some record
      that is read, and at least one record for an empty one, in any order, with
      duplicates, with losses in between and whatever else the network brings, the
      message is there whole, or has been taken already.  If it is the next,
      get_message returns it. */
  lemma CoveredIsComplete(es: seq<Event>, k: nat)
    requires Paced(Init(), es) && Run(Init(), es).Some? && k < |Run(Init(), es).value.h.w.transcript|
    requires Parsed(Run(Init(), es).value.h.w.transcript[k], 0).Some?
    requires forall x | 0 <= x <= |BodyOf(Run(Init(), es).value.h.w.transcript[k])| :: Learned(Init(), es, k, x)
    ensures var s := Run(Init(), es).value;
            Ready(s, k) && (k == |s.delivered| ==> GetMessage(s.r).1 == Some(s.h.w.transcript[k]))
  {
    InitOk();
    DtlsSystem.RunKeepsOk(Init(), es);
    var s := Run(Init(), es).value;
    hide Run, Paced, SystemOk, Learned, Parsed;
    var n := |BodyOf(s.h.w.transcript[k])|;
    forall x | 0 <= x <= n ensures Known(s, k, x) { RunLearns(Init(), es, k, x); }
    KnownIsReady(s, k);
  }

  lemma KnownIsReady(s: System, k: nat)
    requires SystemOk(s) && k < |s.h.w.transcript| && Parsed(s.h.w.transcript[k], 0).Some?
    requires forall x | 0 <= x <= |BodyOf(s.h.w.transcript[k])| :: Known(s, k, x)
    ensures Ready(s, k) && (k == |s.delivered| ==> GetMessage(s.r).1 == Some(s.h.w.transcript[k]))
  {
    assert |s.r.slots| == N && Known(s, k, 0);
    if k >= |s.delivered| {
      var q := k % SEQ16 % N;
      SlotAgrees(s, q);
      var p := s.r.slots[q].value;
      assert Agrees(p, s.h.w.transcript[k]);
      forall x | 0 <= x < |p.body| ensures p.body[x].Some? { assert Known(s, k, x); }
    }
    if k == |s.delivered| { ReadyIsNext(s, k); }
  }

  lemma ReadyIsNext(s: System, k: nat)
    requires SystemOk(s) && Ready(s, k) && k == |s.delivered|
    ensures CurrentComplete(s.r) && k < |s.h.w.transcript| && GetMessage(s.r).1 == Some(s.h.w.transcript[k])
  {
    assert s.r.readSeq == k % SEQ16;
    assert CurrentComplete(s.r);
    PeekIsNext(s);
  }

  // ---------- A whole flight ----------

  /** At some point of the run this record arrives and is read. */
  predicate ReadSometime(s: System, es: seq<Event>, rec: Record)
    requires |s.r.slots| == N
    decreases |es|
  {
    && es != [] && Step(s, es[0]).Some?
    && ((es[0].Arrive? && Reads(s, es[0].i, es[0].maxLen) && s.h.w.sealed[es[0].i] == rec)
        || ReadSometime(Step(s, es[0]).value, es[1..], rec))
  }

  lemma {:induction false} RunExtends(s: System, es: seq<Event>)
    requires H.HistoryOk(s.h) && LogOk(s.h) && |s.r.slots| == N && Run(s, es).Some?
    ensures H.Extends(s.h, Run(s, es).value.h)
    ensures H.HistoryOk(Run(s, es).value.h) && LogOk(Run(s, es).value.h)
    decreases |es|
  {
    hide H.HistoryOk, LogOk, H.Step;
    H.ExtendsItself(s.h);
    if es != [] {
      var s1 := Step(s, es[0]).value;
      if es[0].Send? {
        H.StepKeepsHistory(s.h, es[0].event);
        H.StepExtends(s.h, es[0].event);
        StepKeepsLog(s.h, es[0].event);
      } else {
        assert s1.h == s.h;
      }
      RunExtends(s1, es[1..]);
    }
  }

  /** No record is sealed twice. */
  lemma SealedOnce(w: W.Writer, i: nat, j: nat)
    requires NumbersOk(w) && i < |w.sealed| && j < |w.sealed| && w.sealed[i] == w.sealed[j] && w.sealed[i].body.Sealed?
    ensures i == j
  {
    assert i < j ==> Ascending(w.sealed[i], w.sealed[j]);
    assert j < i ==> Ascending(w.sealed[j], w.sealed[i]);
  }

  lemma ReadNow(s: System, e: Event, h: H.History, j: nat, x: nat)
    requires H.Extends(s.h, h) && NumbersOk(h.w) && j < |h.w.sealed| && j < |h.from|
    requires e.Arrive? && Reads(s, e.i, e.maxLen) && s.h.w.sealed[e.i] == h.w.sealed[j] && Carries(h.w.sealed[j], x)
    ensures LearnsNow(s, e, h.from[j], x)
  {
    H.ExtendsParts(s.h, h);
    hide Carries, Unseen, Near;
    SealedOnce(h.w, e.i, j);
  }

  lemma SendKeepsLog(s: System, e: Event)
    requires H.HistoryOk(s.h) && LogOk(s.h) && |s.r.slots| == N && Step(s, e).Some?
    ensures H.HistoryOk(Step(s, e).value.h) && LogOk(Step(s, e).value.h)
  {
    hide H.HistoryOk, LogOk, H.Step;
    if e.Send? {
      H.StepKeepsHistory(s.h, e.event);
      StepKeepsLog(s.h, e.event);
    } else {
      assert Step(s, e).value.h == s.h;
    }
  }

  /** A record that is read some time leaves its bytes then. */
  lemma {:induction false} SometimeLearned(s: System, es: seq<Event>, h: H.History, j: nat, x: nat)
    requires H.HistoryOk(s.h) && LogOk(s.h) && |s.r.slots| == N && Run(s, es).Some? && Run(s, es).value.h == h
    requires NumbersOk(h.w) && j < |h.w.sealed| && j < |h.from|
    requires ReadSometime(s, es, h.w.sealed[j]) && Carries(h.w.sealed[j], x)
    ensures Learned(s, es, h.from[j], x)
    decreases |es|
  {
    RunExtends(s, es);
    SendKeepsLog(s, es[0]);
    hide H.HistoryOk, LogOk, NumbersOk, Reads, Step, Carries, H.Extends, LearnsNow;
    if es[0].Arrive? && Reads(s, es[0].i, es[0].maxLen) && s.h.w.sealed[es[0].i] == h.w.sealed[j] {
      ReadNow(s, es[0], h, j, x);
    } else {
      SometimeLearned(Step(s, es[0]).value, es[1..], h, j, x);
    }
  }

  /** Byte x of message k, or its one empty fragment, lies between the positions. */
  predicate Wanted(flight: seq<W.OutMsg>, k: nat, i: nat, off: nat, end: (nat, nat), x: nat)
    requires k < |flight| && Parsed(flight[k].data, 0).Some?
  {
    if x >= |BodyOf(flight[k].data)| then i <= k < end.0
    else (i == k ==> off <= x) && (end.0 > k || (end.0 == k && x < end.1))
  }

  lemma FollowsCarries(flight: seq<W.OutMsg>, i: nat, off: nat, rec: Record, k: nat, x: nat)
    requires PosOk(flight, i, off) && k < |flight| && !flight[k].isCcs && Parsed(flight[k].data, 0).Some?
    requires Follows(flight, i, off, rec).Some?
    ensures var (j, o) := Follows(flight, i, off, rec).value;
            && PosOk(flight, j, o) && i <= j <= i + 1 && (j == i ==> off < o) && (j == i + 1 ==> o == 0)
            && (i == k ==> rec.typ == HANDSHAKE && H.PieceOf(flight[k].data, rec)
                           && (off <= x < (if j > k then |BodyOf(flight[k].data)| else o) || x >= |BodyOf(flight[k].data)|
                               ==> Carries(rec, x)))
  {
    hide ParseFragment;
    if !flight[i].isCcs && Parsed(flight[i].data, 0).Some? { ParsedAt(flight[i].data, off); }
  }

  lemma OriginsHead(w: W.Writer, i: nat, off: nat, recs: seq<Record>)
    requires recs != [] && Follows(w.flight, i, off, recs[0]).Some?
    ensures var (i', off') := Follows(w.flight, i, off, recs[0]).value;
            H.Origins(w, i, off, recs) == [H.PlaceOf(w, i)] + H.Origins(w, i', off', recs[1..])
  {
    hide Follows, H.PlaceOf;
  }

  /** The first of the records carries it. */
  predicate FirstCarries(w: W.Writer, i: nat, off: nat, rec: Record, k: nat, x: nat)
    requires k < |w.flight| && Parsed(w.flight[k].data, 0).Some? && Follows(w.flight, i, off, rec).Some?
  {
    var (j, o) := Follows(w.flight, i, off, rec).value;
    i == k && (j > k || x >= |BodyOf(w.flight[k].data)| || x < o)
  }

  lemma FirstOrLater(w: W.Writer, i: nat, off: nat, rec: Record, end: (nat, nat), k: nat, x: nat)
    requires PosOk(w.flight, i, off) && k < |w.flight| && !w.flight[k].isCcs && Parsed(w.flight[k].data, 0).Some?
    requires i <= k && Wanted(w.flight, k, i, off, end, x) && Follows(w.flight, i, off, rec).Some?
    ensures var (j, o) := Follows(w.flight, i, off, rec).value;
            && PosOk(w.flight, j, o)
            && if FirstCarries(w, i, off, rec, k, x) then rec.typ == HANDSHAKE && Carries(rec, x)
               else j <= k && Wanted(w.flight, k, j, o, end, x)
  {
    FollowsCarries(w.flight, i, off, rec, k, x);
    hide Follows, Parsed, ParseFragment, Carries, PosOk, BodyOf, H.PieceOf;
  }

  /** Among records that tile the flight from one position to another there is, for
      every byte of message k between the two, one that carries it. */
  lemma {:induction false} TileCarries(w: W.Writer, i: nat, off: nat, recs: seq<Record>, k: nat, x: nat)
      returns (m: nat)
    requires PosOk(w.flight, i, off) && k < |w.flight| && !w.flight[k].isCcs && Parsed(w.flight[k].data, 0).Some?
    requires Tile(w.flight, i, off, recs).Some?
    requires i <= k && Wanted(w.flight, k, i, off, Tile(w.flight, i, off, recs).value, x)
    ensures m < |recs| && recs[m].typ == HANDSHAKE && Carries(recs[m], x)
    ensures H.Origins(w, i, off, recs)[m] == H.PlaceOf(w, k)
    decreases |recs|
  {
    NothingWanted(w, i, off, recs, k, x);
    hide Follows, Parsed, Carries, PosOk, Wanted, H.PlaceOf, H.Origins;
    FirstOrLater(w, i, off, recs[0], Tile(w.flight, i, off, recs).value, k, x);
    OriginsHead(w, i, off, recs);
    match Follows(w.flight, i, off, recs[0]) {
      case Some((i', off')) =>
        if FirstCarries(w, i, off, recs[0], k, x) {
          m := 0;
        } else {
          m := TileCarries(w, i', off', recs[1..], k, x);
          m := m + 1;
        }
    }
  }

  lemma NothingWanted(w: W.Writer, i: nat, off: nat, recs: seq<Record>, k: nat, x: nat)
    requires PosOk(w.flight, i, off) && k < |w.flight| && Parsed(w.flight[k].data, 0).Some?
    requires Tile(w.flight, i, off, recs).Some?
    requires i <= k && Wanted(w.flight, k, i, off, Tile(w.flight, i, off, recs).value, x)
    ensures recs != []
  {
    hide Parsed;
  }

  /** Every handshake record the transport took since the last rewind has arrived
      some time and was read. */
  predicate LogRead(es: seq<Event>)
    requires Run(Init(), es).Some?
  {
    var w := Run(Init(), es).value.h.w;
    forall m | 0 <= m < |w.log| && w.log[m].typ == HANDSHAKE :: ReadSometime(Init(), es, w.log[m])
  }

  lemma FlightByte(es: seq<Event>, i: nat, x: nat)
    requires Run(Init(), es).Some? && LogRead(es)
    requires var w := Run(Init(), es).value.h.w;
             && w.written == |w.flight| && i < |w.flight| && !w.flight[i].isCcs && Parsed(w.flight[i].data, 0).Some?
    ensures Learned(Init(), es, H.PlaceOf(Run(Init(), es).value.h.w, i), x)
  {
    H.StartKeepsHistory();
    assert LogOk(Init().h);
    RunExtends(Init(), es);
    var h := Run(Init(), es).value.h;
    FullLog(h);
    hide H.HistoryOk, NumbersOk, Run, H.PlaceOf, Carries, Parsed, Tile, H.Origins, PosOk;
    var m := TileCarries(h.w, 0, 0, h.w.log, i, x);
    assert Logged(h, m);
    var j: nat :| LoggedAt(h, m, j);
    SometimeLearned(Init(), es, h, j, x);
  }

  lemma FullLog(h: H.History)
    requires H.HistoryOk(h) && h.w.written == |h.w.flight|
    ensures Tile(h.w.flight, 0, 0, h.w.log) == Some((|h.w.flight|, 0)) && PosOk(h.w.flight, 0, 0) && NumbersOk(h.w)
  {
    hide Parsed;
  }

  /** In every run in pace: when a flight has been written to its end and all its
      records have arrived, in any order among whatever else, and were read, each
      of its messages is there whole or has been taken. */
  lemma FlightArrives(es: seq<Event>, i: nat)
    requires Paced(Init(), es) && Run(Init(), es).Some? && LogRead(es)
    requires var w := Run(Init(), es).value.h.w; w.written == |w.flight| && i < |w.flight| && !w.flight[i].isCcs
    ensures var s := Run(Init(), es).value;
            H.PlaceOf(s.h.w, i) < |s.h.w.transcript| && s.h.w.transcript[H.PlaceOf(s.h.w, i)] == s.h.w.flight[i].data
    ensures Ready(Run(Init(), es).value, H.PlaceOf(Run(Init(), es).value.h.w, i))
  {
    InitOk();
    DtlsSystem.RunKeepsOk(Init(), es);
    var s := Run(Init(), es).value;
    var k := H.PlaceOf(s.h.w, i);
    FlightEntry(s.h.w, i);
    hide Run, SystemOk, LogRead, Learned, H.PlaceOf, Paced, Parsed;
    forall x | 0 <= x <= |BodyOf(s.h.w.transcript[k])| ensures Learned(Init(), es, k, x) { FlightByte(es, i, x); }
    CoveredIsComplete(es, k);
  }

  lemma FlightEntry(w: W.Writer, i: nat)
    requires WriterOk(w) && i < |w.flight| && !w.flight[i].isCcs
    ensures var k := H.PlaceOf(w, i);
            k < |w.transcript| && w.transcript[k] == w.flight[i].data && Parsed(w.flight[i].data, 0).Some?
  {
    H.PlaceRecent(w, i);
    assert MsgOk(w, w.flight[i]);
  }

  // ---------- And is delivered ----------

  /** Asking for and taking n messages. */
  function Takes(n: nat): seq<Event> { if n == 0 then [] else [Peek, Deliver] + Takes(n - 1) }

  function Asked(s: System): System
    requires |s.r.slots| == N
  {
    s.(r := GetMessage(s.r).0)
  }

  lemma AskedReady(s: System)
    requires SystemOk(s) && Ready(s, |s.delivered|)
    ensures |s.r.slots| == N && Asked(s).r == s.r.(hasMessage := true) && SystemOk(Asked(s)) && CurrentComplete(Asked(s).r)
  {
    ReadyIsNext(s, |s.delivered|);
    PeekKeepsOk(s);
  }

  lemma TakeOne(s: System)
    requires SystemOk(s) && Ready(s, |s.delivered|)
    ensures |s.r.slots| == N && |Asked(s).r.slots| == N && CurrentComplete(Asked(s).r) && Asked(s).r.hasMessage
    ensures var s' := Taken(Asked(s));
            && |s'.r.slots| == N && SystemOk(s') && s'.h == s.h && |s'.delivered| == |s.delivered| + 1
            && forall k | k > |s.delivered| && Ready(s, k) :: Ready(s', k)
  {
    AskedReady(s);
    var s1 := Asked(s);
    assert RingOk(s1.r) && s1.r.readSeq == |s1.delivered| % SEQ16;
    DeliverKeepsOk(s1);
    hide SystemOk, RingOk, CurrentComplete, Ready, Complete, NextMessage, GetMessage;
    forall k | k > |s.delivered| && Ready(s, k) ensures Ready(Taken(s1), k) {
      SameReady(s, s1, k);
      StaysReady(s1, k);
    }
  }

  lemma SameReady(s: System, s1: System, k: nat)
    requires |s.r.slots| == N && Ready(s, k) && s1 == s.(r := s1.r) && s1.r == s.r.(hasMessage := true)
    ensures Ready(s1, k)
  {}

  lemma StaysReady(s: System, k: nat)
    requires RingOk(s.r) && s.r.readSeq == |s.delivered| % SEQ16 && s.r.hasMessage && CurrentComplete(s.r)
    requires Ready(s, k) && k > |s.delivered|
    ensures Ready(Taken(s), k)
  {
    OthersStay(s, k);
    hide RingOk, CurrentComplete, NextMessage, Complete;
  }

  lemma TakesTwo(s: System, n: nat)
    requires |s.r.slots| == N && n > 0 && CurrentComplete(Asked(s).r) && Asked(s).r.hasMessage
    ensures |Taken(Asked(s)).r.slots| == N && Run(s, Takes(n)) == Run(Taken(Asked(s)), Takes(n - 1))
  {
    hide CurrentComplete, NextMessage, GetMessage;
    var (s1, rest) := (Asked(s), Takes(n - 1));
    assert Takes(n)[0] == Peek && Takes(n)[1..] == [Deliver] + rest;
    assert ([Deliver] + rest)[0] == Deliver && ([Deliver] + rest)[1..] == rest;
    assert Step(s, Peek) == Some(s1) && Step(s1, Deliver) == Some(Taken(s1));
    hide Step;
    assert Run(s, Takes(n)) == Run(s1, [Deliver] + rest);
  }

  /** The next n messages can be taken. */
  ghost predicate CanTake(s: System, n: nat)
    requires |s.r.slots| == N
  {
    match Run(s, Takes(n))
    case None => false
    case Some(s') => SystemOk(s') && s'.h == s.h && |s'.delivered| == |s.delivered| + n
  }

  lemma TakesNone(s: System)
    requires SystemOk(s) && |s.r.slots| == N
    ensures CanTake(s, 0)
  {
    hide SystemOk;
  }

  lemma TakesMore(s: System, n: nat)
    requires |s.r.slots| == N && n > 0 && CurrentComplete(Asked(s).r) && Asked(s).r.hasMessage
    requires var s' := Taken(Asked(s));
             |s'.r.slots| == N && CanTake(s', n - 1) && s'.h == s.h && |s'.delivered| == |s.delivered| + 1
    ensures CanTake(s, n)
  {
    TakesTwo(s, n);
    hide SystemOk, Run, Takes, Taken, Asked, CurrentComplete;
  }

  lemma {:induction false} TakesDeliver(s: System, n: nat)
    requires SystemOk(s) && |s.r.slots| == N
    requires forall k | |s.delivered| <= k < |s.delivered| + n :: Ready(s, k)
    ensures CanTake(s, n)
    decreases n
  {
    hide SystemOk, Ready, CanTake, Taken, Asked, CurrentComplete, H.HistoryOk, GetMessage, NextMessage, Complete, Index;
    if n == 0 {
      TakesNone(s);
    } else {
      TakeOne(s);
      var s' := Taken(Asked(s));
      SystemParts(s');
      TakesDeliver(s', n - 1);
      TakesMore(s, n);
    }
  }

  /** All that was sent has been taken. */
  predicate AllTaken(s: System) {
    && |s.delivered| == |s.h.w.transcript|
    && forall k | 0 <= k < |s.delivered| :: Complete(s.delivered[k]) && Raw(s.delivered[k]) == s.h.w.transcript[k]
  }

  lemma AllTakenOk(s: System)
    requires SystemOk(s) && |s.delivered| == |s.h.w.transcript|
    ensures AllTaken(s)
  {
    hide H.HistoryOk, RingOk, AcceptedOk, SlotTrue, Complete, Agrees, Raw;
    forall k | 0 <= k < |s.delivered| ensures Complete(s.delivered[k]) && Raw(s.delivered[k]) == s.h.w.transcript[k] {
      assert DeliveredTrue(s, k);
      CompleteIsSent(s.delivered[k], s.h.w.transcript[k]);
    }
  }

  /** As many calls as there are messages left take all that was sent. */
  predicate CanTakeAll(s: System)
    requires |s.r.slots| == N
  {
    && |s.delivered| <= |s.h.w.transcript|
    && var s' := Run(s, Takes(|s.h.w.transcript| - |s.delivered|));
       s'.Some? && s'.value.h == s.h && AllTaken(s'.value)
  }

  lemma AllReady(s: System)
    requires SystemOk(s) && |s.r.slots| == N && |s.delivered| <= |s.h.w.transcript|
    requires forall k | |s.delivered| <= k < |s.h.w.transcript| :: Ready(s, k)
    ensures CanTakeAll(s)
  {
    hide SystemOk, Run, Takes, Ready, AllTaken;
    var n := |s.h.w.transcript| - |s.delivered|;
    TakesDeliver(s, n);
    match Run(s, Takes(n)) {
      case Some(s') => AllTakenOk(s');
    }
  }

  /** In every run in pace: a flight written to its end, all of whose records arrive
      and are read, is delivered: when everything before it has been taken, as many
      calls as there are messages left take all that was sent. */
  lemma FlightDelivered(es: seq<Event>)
    requires Paced(Init(), es) && Run(Init(), es).Some? && LogRead(es)
    requires var s := Run(Init(), es).value;
             && s.h.w.written == |s.h.w.flight|
             && |s.h.w.transcript| <= |s.delivered| + Count(s.h.w.flight, |s.h.w.flight|)
    ensures CanTakeAll(Run(Init(), es).value)
  {
    hide Run, Paced, LogRead, Count, CanTakeAll, SystemOk, Ready;
    FlightReady(es);
    AllReady(Run(Init(), es).value);
  }

  lemma FlightReady(es: seq<Event>)
    requires Paced(Init(), es) && Run(Init(), es).Some? && LogRead(es)
    requires var s := Run(Init(), es).value;
             && s.h.w.written == |s.h.w.flight|
             && |s.h.w.transcript| <= |s.delivered| + Count(s.h.w.flight, |s.h.w.flight|)
    ensures var s := Run(Init(), es).value;
            && SystemOk(s) && |s.r.slots| == N && |s.delivered| <= |s.h.w.transcript|
            && forall k | |s.delivered| <= k < |s.h.w.transcript| :: Ready(s, k)
  {
    InitOk();
    DtlsSystem.RunKeepsOk(Init(), es);
    var s := Run(Init(), es).value;
    SystemParts(s);
    hide *;
    forall k | |s.delivered| <= k < |s.h.w.transcript| ensures Ready(s, k) {
      var i := EntryOf(s.h.w, k);
      FlightArrives(es, i);
    }
  }

  lemma SystemParts(s: System)
    requires SystemOk(s)
    ensures |s.delivered| <= |s.h.w.transcript| && TailOk(s.h.w) && |s.r.slots| == N
  {
    hide NumbersOk, Tile, PosOk, TailOk, AcceptedOk, SlotTrue, DeliveredTrue;
  }

  /** The queued messages are the last of the transcript. */
  lemma EntryOf(w: W.Writer, k: nat) returns (i: nat)
    requires TailOk(w) && |w.transcript| - Count(w.flight, |w.flight|) <= k < |w.transcript|
    ensures i < |w.flight| && !w.flight[i].isCcs && H.PlaceOf(w, i) == k
  {
    i := NthMessage(w.flight, k - (|w.transcript| - Count(w.flight, |w.flight|)));
  }

  lemma {:induction false} NthMessage(flight: seq<W.OutMsg>, n: nat) returns (i: nat)
    requires n < Count(flight, |flight|)
    ensures i < |flight| && !flight[i].isCcs && Count(flight, i) == n
    decreases |flight|
  {
    var l := |flight|;
    var rest := flight[..l - 1];
    CountPrefix(rest, [flight[l - 1]], l - 1);
    assert rest + [flight[l - 1]] == flight;
    if n < Count(flight, l - 1) {
      i := NthMessage(rest, n);
      CountPrefix(rest, [flight[l - 1]], i);
    } else {
      i := l - 1;
    }
  }
}
