/** A sender, a network that loses, duplicates and reorders records, and a
    receiver: what is delivered is what was sent. */
module DtlsSystem {
  import opened Bytes
  import opened Reassembly
  import opened ReplayWindow
  import opened DtlsWire
  import opened DtlsReader
  import DtlsWriter
  import opened DtlsFlight
  import H = DtlsHistory

  /** accepted lists the (generation, number) of every record the receiver opened,
      delivered the messages it has taken. */
  datatype System = System(h: H.History, r: Reader, accepted: seq<(nat, nat)>, delivered: seq<Partial>)

  /** Any record ever sealed may arrive, any number of times and in any order, or
      never; Noise is a record that opens under no keys. */
  datatype Event =
    | Send(event: DtlsWriter.Event)
    | Arrive(i: nat, maxLen: nat)
    | Noise(typ: byte, number: nat, maxLen: nat)
    | Peek
    | Deliver
    | ReadKeys

  function Init(): System { System(H.Start(), DtlsReader.Start(), [], []) }

  function Receive(s: System, rec: Record, maxLen: nat): System
    requires |s.r.slots| == N
  {
    s.(r := OpenHandshake(s.r, rec, maxLen).0,
       accepted := s.accepted + if OpenRecord(s.r, rec).1 in {Success, Alerted} then [(s.r.gen, rec.number)] else [])
  }

  function Step(s: System, e: Event): (s': Option<System>)
    requires |s.r.slots| == N
    ensures s'.Some? ==> |s'.value.r.slots| == N
  {
    match e
    case Send(event) =>
      (match H.Step(s.h, event)
       case None => None
       case Some(h') => Some(s.(h := h')))
    case Arrive(i, maxLen) =>
      Some(if i < |s.h.w.sealed| then Receive(s, s.h.w.sealed[i], maxLen) else s)
    case Noise(typ, number, maxLen) => Some(Receive(s, Record(typ, number, Garbage), maxLen))
    case Peek => Some(s.(r := GetMessage(s.r).0))
    case Deliver =>
      if s.r.hasMessage && CurrentComplete(s.r) then
        Some(s.(r := NextMessage(s.r), delivered := s.delivered + [s.r.slots[s.r.readSeq % N].value]))
      else Some(s)
    case ReadKeys =>
      match SetReadState(s.r)
      case None => None
      case Some(r') => Some(s.(r := r'))
  }

  function Run(s: System, es: seq<Event>): (s': Option<System>)
    requires |s.r.slots| == N
    ensures s'.Some? ==> |s'.value.r.slots| == N
    decreases |es|
  {
    if es == [] then Some(s)
    else
      match Step(s, es[0])
      case None => None
      case Some(s') => Run(s', es[1..])
  }

  /** The sender is at most one round of message numbers ahead. */
  predicate InPace(s: System) {
    |s.h.w.transcript| <= |s.delivered| + SEQ16
  }

  predicate Paced(s: System, es: seq<Event>)
    requires |s.r.slots| == N
    decreases |es|
  {
    InPace(s) && (es != [] && Step(s, es[0]).Some? ==> Paced(Step(s, es[0]).value, es[1..]))
  }

  // ---------- The invariant ----------

  /** What is known of a message agrees with what was sent. */
  predicate Agrees(p: Partial, data: bytes) {
    var m := Parsed(data, 0);
    && m.Some?
    && p.typ == m.value.0.typ && p.seqNum == m.value.0.seqNum && |p.body| == |m.value.1|
    && forall i | 0 <= i < |p.body| && p.body[i].Some? :: p.body[i].value == m.value.1[i]
  }

  /** Record i belongs to message k and has been opened. */
  predicate Witnesses(s: System, i: nat, k: nat) {
    && i < |s.h.from| && i < |s.h.w.sealed|
    && s.h.w.sealed[i].typ == HANDSHAKE && s.h.from[i] == k
    && s.h.w.sealed[i].body.Sealed?
    && (s.h.w.sealed[i].body.gen, s.h.w.sealed[i].number) in s.accepted
  }

  ghost predicate Begun(s: System, k: nat) {
    exists i: nat :: Witnesses(s, i, k)
  }

  /** The place in the transcript of the message in a slot. */
  function Index(s: System, p: Partial): int {
    |s.delivered| + (p.seqNum - s.r.readSeq)
  }

  ghost predicate SlotTrue(s: System, p: Partial) {
    && 0 <= Index(s, p) < |s.h.w.transcript|
    && Agrees(p, s.h.w.transcript[Index(s, p)])
    && Begun(s, Index(s, p))
  }

  ghost predicate DeliveredTrue(s: System, k: nat)
    requires k < |s.delivered| <= |s.h.w.transcript|
  {
    && Complete(s.delivered[k])
    && Agrees(s.delivered[k], s.h.w.transcript[k])
    && (exists g :: s.delivered[k].gens == {g})
    && Begun(s, k)
  }

  predicate AcceptedOk(s: System) {
    && (forall a | a in s.accepted :: a.0 <= s.r.gen && (a.0 == s.r.gen ==> a.1 in s.r.window))
    && (forall i, j | 0 <= i < j < |s.accepted| :: s.accepted[i] != s.accepted[j])
  }

  ghost predicate SystemOk(s: System) {
    && H.HistoryOk(s.h) && RingOk(s.r) && AcceptedOk(s)
    && s.r.readSeq == |s.delivered| % SEQ16
    && |s.delivered| <= |s.h.w.transcript|
    && (forall i | 0 <= i < N && s.r.slots[i].Some? :: SlotTrue(s, s.r.slots[i].value))
    && (forall k | 0 <= k < |s.delivered| :: DeliveredTrue(s, k))
  }

  // ---------- Message numbers are unambiguous ----------

  /** From an opened record of message k, a chain of opened records of the
      messages N, 2N, ... further on, each with a higher number. */
  lemma {:induction false} Chain(s: System, i: nat, m: nat) returns (j: nat)
    requires SystemOk(s) && i < |s.h.from| && s.h.w.sealed[i].typ == HANDSHAKE
    requires s.h.w.sealed[i].body.Sealed? && s.h.w.sealed[i].body.gen == s.r.gen
    requires s.h.from[i] + N * m < |s.delivered|
    ensures j < |s.h.from| && s.h.from[j] == s.h.from[i] + N * m && s.h.w.sealed[j].typ == HANDSHAKE
    ensures s.h.w.sealed[j].body.Sealed? && s.h.w.sealed[j].body.gen == s.r.gen
    ensures s.h.w.sealed[j].number >= s.h.w.sealed[i].number + m
    ensures m > 0 ==> s.h.w.sealed[j].number in s.r.window
  {
    hide H.HistoryOk, RingOk, Agrees, SlotTrue;
    assert |s.h.from| == |s.h.w.sealed| by { H.Lengths(s.h); }
    if m == 0 {
      j := i;
    } else {
      var prev := Chain(s, i, m - 1);
      assert DeliveredTrue(s, s.h.from[i] + N * m);
      j :| Witnesses(s, j, s.h.from[i] + N * m);
      H.LaterMessageHigherNumber(s.h, prev, j);
    }
  }

  /** A record that is not discarded belongs to the very message its number
      announces, though numbers repeat every 65536 messages: for an older message
      with that number, the replay window has moved on. */
  lemma NumberIsUnambiguous(s: System, i: nat)
    requires SystemOk(s) && InPace(s) && i < |s.h.from|
    requires s.h.w.sealed[i].typ == HANDSHAKE && s.h.w.sealed[i].body.Sealed?
    requires s.h.w.sealed[i].body.gen == s.r.gen && !StaleTest(s.r.window, s.h.w.sealed[i].number)
    requires s.r.readSeq <= s.h.from[i] % SEQ16 < s.r.readSeq + N
    ensures s.h.from[i] == |s.delivered| + (s.h.from[i] % SEQ16 - s.r.readSeq)
  {
    hide H.HistoryOk, RingOk, SlotTrue, DeliveredTrue, AcceptedOk;
    H.Lengths(s.h);
    H.FromBelow(s.h, i);
    var k, t := s.h.from[i], |s.delivered| + (s.h.from[i] % SEQ16 - s.r.readSeq);
    SameOrFar(k, |s.delivered|);
    if k + SEQ16 <= t {
      var j := Chain(s, i, WINDOW);
    }
  }

  lemma SameOrFar(k: nat, d: nat)
    ensures var t := d + (k % SEQ16 - d % SEQ16); k == t || k + SEQ16 <= t || t + SEQ16 <= k
  {}

  // ---------- What each step keeps ----------

  /** The history may grow and the set of opened records may grow. */
  lemma BegunGrows(s: System, s': System, k: nat)
    requires Begun(s, k) && |s.h.from| == |s.h.w.sealed|
    requires H.Extends(s.h, s'.h) && s.accepted <= s'.accepted
    ensures Begun(s', k)
  {
    var i: nat :| Witnesses(s, i, k);
    assert s'.h.from[i] == s.h.from[i] && s'.h.w.sealed[i] == s.h.w.sealed[i];
    assert (s.h.w.sealed[i].body.gen, s.h.w.sealed[i].number) in s'.accepted;
    assert Witnesses(s', i, k);
  }

  /** Messages already there stay true when only the history grows. */
  lemma TruthGrows(s: System, s': System)
    requires SystemOk(s) && H.Extends(s.h, s'.h) && s.accepted <= s'.accepted
    requires s'.delivered == s.delivered && s'.r.readSeq == s.r.readSeq
    ensures forall k | 0 <= k < |s.delivered| :: DeliveredTrue(s', k)
    ensures forall i | 0 <= i < N && s.r.slots[i].Some? :: SlotTrue(s', s.r.slots[i].value)
  {
    H.Lengths(s.h);
    hide H.HistoryOk, RingOk, Agrees, AcceptedOk, Begun, H.Extends;
    assert s.h.w.transcript <= s'.h.w.transcript by { H.ExtendsParts(s.h, s'.h); }
    forall k | 0 <= k < |s.delivered| ensures DeliveredTrue(s', k) {
      assert DeliveredTrue(s, k);
      BegunGrows(s, s', k);
    }
    forall i | 0 <= i < N && s.r.slots[i].Some? ensures SlotTrue(s', s.r.slots[i].value) {
      var p := s.r.slots[i].value;
      assert SlotTrue(s, p);
      BegunGrows(s, s', Index(s, p));
      assert Index(s', p) == Index(s, p);
    }
  }

  lemma SendKeepsOk(s: System, e: DtlsWriter.Event)
    requires SystemOk(s) && H.Step(s.h, e).Some?
    ensures SystemOk(s.(h := H.Step(s.h, e).value))
  {
    hide H.HistoryOk, RingOk, SlotTrue, DeliveredTrue, H.Step;
    H.StepKeepsHistory(s.h, e);
    H.StepExtends(s.h, e);
    H.ExtendsParts(s.h, H.Step(s.h, e).value);
    TruthGrows(s, s.(h := H.Step(s.h, e).value));
  }

  /** Opening a record changes only the window, which learns its number. */
  lemma OpenEffect(s: System, rec: Record)
    requires AcceptedOk(s)
    ensures var (r', status, plain) := OpenRecord(s.r, rec);
            var more := if status in {Success, Alerted} then [(s.r.gen, rec.number)] else [];
            && r' == s.r.(window := r'.window)
            && AcceptedOk(s.(r := r', accepted := s.accepted + more))
            && (status == Success ==>
                  rec.body.Sealed? && rec.body.gen == s.r.gen && plain == rec.body.plain
                  && !StaleTest(s.r.window, rec.number))
  {
    var (r', status, plain) := OpenRecord(s.r, rec);
    if status in {Success, Alerted} {
      assert (s.r.gen, rec.number) !in s.accepted;
    }
  }

  lemma SlotAgrees(s: System, i: nat)
    requires SystemOk(s) && i < N && s.r.slots[i].Some?
    ensures SlotTrue(s, s.r.slots[i].value)
  {}

  /** A piece of the message a slot is for adds only bytes of that message. */
  lemma MergeAgrees(p: Partial, data: bytes, rec: Record, gen: nat)
    requires Agrees(p, data) && H.PieceOf(data, rec)
    ensures var f := ParseFragment(rec.body.plain).value;
            && f.0.fragOff + |f.1| <= |p.body|
            && Agrees(Merge(p, f.0.fragOff, f.1, gen), data)
  {
    hide Parsed, ParseFragment;
  }

  lemma FreshAgrees(data: bytes, rec: Record, gen: nat)
    requires H.PieceOf(data, rec)
    ensures Agrees(Fresh(ParseFragment(rec.body.plain).value.0, gen), data)
  {
    hide Parsed, ParseFragment;
  }

  /** What a fragment puts in its slot agrees with the message it was cut from. */
  lemma AcceptAgrees(s: System, rec: Record, k: nat, maxLen: nat)
    requires SystemOk(s) && k < |s.h.w.transcript|
    requires H.PieceOf(s.h.w.transcript[k], rec) && IsMessage(s.h.w.transcript[k], k % SEQ16)
    requires s.r.readSeq <= k % SEQ16 < s.r.readSeq + N ==> k == |s.delivered| + (k % SEQ16 - s.r.readSeq)
    ensures var (h, body) := ParseFragment(rec.body.plain).value;
            var r' := Accept(s.r, h, body, maxLen).0;
            r' == s.r || (
              && s.r.readSeq <= k % SEQ16 < s.r.readSeq + N
              && r'.slots[k % SEQ16 % N].Some? && r' == s.r.(slots := s.r.slots[k % SEQ16 % N := r'.slots[k % SEQ16 % N]])
              && Agrees(r'.slots[k % SEQ16 % N].value, s.h.w.transcript[k]))
  {
    assert |s.r.slots| == N;
    hide Parsed, ParseFragment, RingOk, Agrees, H.HistoryOk, AcceptedOk, DeliveredTrue, Begun, Merge, Fresh;
    var data := s.h.w.transcript[k];
    var (h, body) := ParseFragment(rec.body.plain).value;
    assert h.seqNum == k % SEQ16;
    FreshAgrees(data, rec, s.r.gen);
    if s.r.readSeq <= h.seqNum < s.r.readSeq + N && s.r.slots[h.seqNum % N].Some? {
      var p := s.r.slots[h.seqNum % N].value;
      SameResidue(s.r, h.seqNum);
      SlotAgrees(s, h.seqNum % N);
      assert Index(s, p) == k;
      MergeAgrees(p, data, rec, s.r.gen);
    }
    hide SystemOk, H.PieceOf, SlotTrue;
    MergeAgrees(Fresh(h, s.r.gen), data, rec, s.r.gen);
  }

  /** The receiver after the record layer's part. */
  function Opened(s: System, rec: Record): System
    requires |s.r.slots| == N
  {
    var (r', status, plain) := OpenRecord(s.r, rec);
    s.(r := r', accepted := s.accepted + if status in {Success, Alerted} then [(s.r.gen, rec.number)] else [])
  }

  lemma OpenedKeepsOk(s: System, rec: Record)
    requires SystemOk(s)
    ensures SystemOk(Opened(s, rec)) && Opened(s, rec).r == s.r.(window := Opened(s, rec).r.window)
  {
    hide H.HistoryOk, SlotTrue, DeliveredTrue, RingOk;
    OpenEffect(s, rec);
    RingIgnores(s.r, OpenRecord(s.r, rec).0.window, s.r.ccs);
    H.ExtendsItself(s.h);
    TruthGrows(s, Opened(s, rec));
  }

  /** Filling a slot with what agrees with its message, of which some record has
      been opened. */
  lemma FillKeepsOk(s: System, r': Reader, k: nat, i: nat)
    requires SystemOk(s) && RingOk(r') && k < |s.h.w.transcript| && IsMessage(s.h.w.transcript[k], k % SEQ16)
    requires k == |s.delivered| + (k % SEQ16 - s.r.readSeq)
    requires var q := k % SEQ16 % N;
             r'.slots[q].Some? && r' == s.r.(slots := s.r.slots[q := r'.slots[q]])
             && Agrees(r'.slots[q].value, s.h.w.transcript[k])
    requires Witnesses(s, i, k)
    ensures SystemOk(s.(r := r'))
  {
    var s' := s.(r := r');
    var q := k % SEQ16 % N;
    FilledTrue(s, r', k, i);
    H.Lengths(s.h);
    H.ExtendsItself(s.h);
    assert |s.r.slots| == N;
    hide H.HistoryOk, RingOk, Agrees, DeliveredTrue, IsMessage, Witnesses, SlotTrue, AcceptedOk;
    TruthGrows(s, s');
    forall j | 0 <= j < N && s'.r.slots[j].Some? ensures SlotTrue(s', s'.r.slots[j].value) {
      if j != q { assert SlotTrue(s', s.r.slots[j].value); }
    }
    AcceptedFrame(s, s');
  }

  lemma FilledTrue(s: System, r': Reader, k: nat, i: nat)
    requires k < |s.h.w.transcript| && k == |s.delivered| + (k % SEQ16 - s.r.readSeq)
    requires r'.readSeq == s.r.readSeq && Witnesses(s, i, k)
    requires IsMessage(s.h.w.transcript[k], k % SEQ16)
    requires var q := k % SEQ16 % N;
             q < |r'.slots| && r'.slots[q].Some? && Agrees(r'.slots[q].value, s.h.w.transcript[k])
    ensures SlotTrue(s.(r := r'), r'.slots[k % SEQ16 % N].value)
  {
    hide Parsed;
    assert Begun(s.(r := r'), k) by { assert Witnesses(s.(r := r'), i, k); }
  }

  lemma AcceptedFrame(s: System, s': System)
    requires AcceptedOk(s)
    requires s'.accepted == s.accepted && s'.r.gen == s.r.gen && s'.r.window == s.r.window
    ensures AcceptedOk(s')
  {}

  lemma ArriveKeepsOk(s: System, i: nat, maxLen: nat)
    requires SystemOk(s) && InPace(s) && i < |s.h.w.sealed|
    ensures SystemOk(Receive(s, s.h.w.sealed[i], maxLen))
  {
    var rec := s.h.w.sealed[i];
    OpenedKeepsOk(s, rec);
    OpenEffect(s, rec);
    OpenKeepsRing(s.r, rec, maxLen);
    H.Lengths(s.h);
    var s1 := Opened(s, rec);
    var s' := Receive(s, rec, maxLen);
    var (r1, status, plain) := OpenRecord(s.r, rec);
    hide SystemOk, OpenRecord, RingOk;
    if status == Success && rec.typ == HANDSHAKE {
      HandshakeKeepsOk(s, s1, i, plain, maxLen);
    } else {
      CcsKeepsOk(s1, s'.r.ccs);
    }
  }

  lemma CcsKeepsOk(s: System, ccs: bool)
    requires SystemOk(s)
    ensures SystemOk(s.(r := s.r.(ccs := ccs)))
  {
    hide H.HistoryOk, SlotTrue, DeliveredTrue, RingOk;
    RingIgnores(s.r, s.r.window, ccs);
    H.ExtendsItself(s.h);
    TruthGrows(s, s.(r := s.r.(ccs := ccs)));
  }

  lemma HandshakeKeepsOk(s: System, s1: System, i: nat, plain: bytes, maxLen: nat)
    requires SystemOk(s) && SystemOk(s1) && InPace(s) && i < |s.h.from| == |s.h.w.sealed|
    requires var rec := s.h.w.sealed[i];
             && rec.typ == HANDSHAKE && rec.body.Sealed? && rec.body.gen == s.r.gen && rec.body.plain == plain
             && !StaleTest(s.r.window, rec.number)
             && s1 == s.(r := s.r.(window := s1.r.window), accepted := s.accepted + [(s.r.gen, rec.number)])
    ensures SystemOk(s1.(r := Fragments(s1.r, plain, maxLen).0))
  {
    var rec, k := s.h.w.sealed[i], s.h.from[i];
    H.FromBelow(s.h, i);
    var (h, body) := ParseFragment(plain).value;
    OneFragment(s1.r, plain, h, body, maxLen);
    FragmentsKeepRing(s1.r, plain, maxLen);
    if s.r.readSeq <= k % SEQ16 < s.r.readSeq + N { NumberIsUnambiguous(s, i); }
    AcceptAgrees(s1, rec, k, maxLen);
    var r' := Fragments(s1.r, plain, maxLen).0;
    if r' != s1.r {
      assert Witnesses(s1, i, k);
      FillKeepsOk(s1, r', k, i);
    }
  }

  lemma NoiseKeepsOk(s: System, rec: Record, maxLen: nat)
    requires SystemOk(s) && rec.body.Garbage?
    ensures SystemOk(Receive(s, rec, maxLen)) && Receive(s, rec, maxLen) == s
  {
    hide SystemOk, RingOk, StaleTest;
    assert s.accepted + [] == s.accepted;
  }

  lemma PeekKeepsOk(s: System)
    requires SystemOk(s)
    ensures SystemOk(s.(r := GetMessage(s.r).0))
  {
    hide H.HistoryOk, SlotTrue, DeliveredTrue, RingOk;
    GetKeepsRing(s.r);
    H.ExtendsItself(s.h);
    TruthGrows(s, s.(r := GetMessage(s.r).0));
  }

  lemma KeysKeepOk(s: System)
    requires SystemOk(s) && SetReadState(s.r).Some?
    ensures SystemOk(s.(r := SetReadState(s.r).value))
  {
    hide H.HistoryOk, SlotTrue, DeliveredTrue, RingOk;
    SetReadStateKeepsRing(s.r);
    H.ExtendsItself(s.h);
    TruthGrows(s, s.(r := SetReadState(s.r).value));
  }

  /** Taking a message moves every other one a place nearer, also where the
      message numbers wrap. */
  lemma DeliverKeepsOk(s: System)
    requires SystemOk(s) && s.r.hasMessage && CurrentComplete(s.r)
    ensures SystemOk(s.(r := NextMessage(s.r), delivered := s.delivered + [s.r.slots[s.r.readSeq % N].value]))
  {
    hide RingOk, H.HistoryOk, Complete, Agrees, Begun, CurrentComplete, Index, SlotTrue, DeliveredTrue;
    RingSize(s.r);
    CurrentThere(s.r);
    var s' := s.(r := NextMessage(s.r), delivered := s.delivered + [s.r.slots[s.r.readSeq % N].value]);
    NextKeepsRing(s.r);
    CurrentTrue(s);
    OthersWithinNumbers(s.r);
    DeliverSlots(s, s');
    DeliverList(s, s');
  }

  lemma DeliverList(s: System, s': System)
    requires SystemOk(s) && |s.delivered| < |s.h.w.transcript|
    requires s'.h == s.h && s'.accepted == s.accepted && |s'.delivered| == |s.delivered| + 1
    requires s'.delivered[..|s.delivered|] == s.delivered
    requires var p := s'.delivered[|s.delivered|];
             && Complete(p) && Agrees(p, s.h.w.transcript[|s.delivered|]) && exists g :: p.gens == {g}
    requires Begun(s, |s.delivered|)
    ensures forall k | 0 <= k < |s'.delivered| :: DeliveredTrue(s', k)
  {
    hide RingOk, H.HistoryOk, Complete, Agrees, Begun, SlotTrue, AcceptedOk;
    forall k | 0 <= k < |s'.delivered| ensures DeliveredTrue(s', k) {
      if k < |s.delivered| { assert DeliveredTrue(s, k) && s'.delivered[k] == s.delivered[k]; }
      SameBegun(s, s', k);
    }
  }

  /** The message at the read position is the next one sent. */
  lemma CurrentTrue(s: System)
    requires SystemOk(s) && CurrentComplete(s.r)
    ensures var p := s.r.slots[s.r.readSeq % N].value;
            && |s.delivered| < |s.h.w.transcript|
            && Complete(p) && Agrees(p, s.h.w.transcript[|s.delivered|])
            && Begun(s, |s.delivered|)
            && exists g :: p.gens == {g}
  {
    SameResidue(s.r, s.r.readSeq);
    SlotAgrees(s, s.r.readSeq % N);
    CurrentPure(s.r);
  }

  lemma SameBegun(s: System, s': System, k: nat)
    requires s'.h == s.h && s'.accepted == s.accepted
    ensures Begun(s, k) == Begun(s', k)
  {
    forall i: nat ensures Witnesses(s, i, k) == Witnesses(s', i, k) {}
  }

  lemma DeliverSlots(s: System, s': System)
    requires |s.r.slots| == N && s'.r.readSeq == (s.r.readSeq + 1) % SEQ16
    requires s'.r.slots == s.r.slots[s.r.readSeq % N := None]
    requires s'.h == s.h && s'.accepted == s.accepted && |s'.delivered| == |s.delivered| + 1
    requires s.r.readSeq < SEQ16
    requires s.r.readSeq + 1 == SEQ16 ==> forall i | 0 <= i < N && i != s.r.readSeq % N :: s.r.slots[i].None?
    requires forall i | 0 <= i < N && s.r.slots[i].Some? :: SlotTrue(s, s.r.slots[i].value)
    ensures forall i | 0 <= i < N && s'.r.slots[i].Some? :: SlotTrue(s', s'.r.slots[i].value)
  {
    hide Agrees, Begun;
    forall i | 0 <= i < N && s'.r.slots[i].Some? ensures SlotTrue(s', s'.r.slots[i].value) {
      var o := s.r.slots[i].value;
      assert SlotTrue(s, o);
      assert Index(s', o) == Index(s, o);
      SameBegun(s, s', Index(s, o));
    }
  }

  lemma CurrentThere(st: Reader)
    requires |st.slots| == N && CurrentComplete(st)
    ensures st.slots[st.readSeq % N].Some?
  {}

  lemma CurrentPure(st: Reader)
    requires RingOk(st) && CurrentComplete(st)
    ensures exists g :: st.slots[st.readSeq % N].value.gens == {g}
  {
    assert SlotOk(st, st.readSeq % N, st.slots[st.readSeq % N].value);
  }

  /** Before the numbers wrap the ring holds no other message. */
  lemma OthersWithinNumbers(st: Reader)
    requires RingOk(st)
    ensures st.readSeq + 1 == SEQ16 ==> forall i | 0 <= i < N && i != st.readSeq % N :: st.slots[i].None?
  {
    if st.readSeq + 1 == SEQ16 {
      forall i | 0 <= i < N && i != st.readSeq % N ensures st.slots[i].None? {
        assert st.slots[i].Some? ==> SlotOk(st, i, st.slots[i].value);
      }
    }
  }

  lemma StepKeepsOk(s: System, e: Event)
    requires SystemOk(s) && InPace(s) && Step(s, e).Some?
    ensures SystemOk(Step(s, e).value)
  {
    assert |s.r.slots| == N;
    hide SystemOk, OpenHandshake, OpenRecord;
    match e {
      case Send(event) => SendKeepsOk(s, event);
      case Arrive(i, maxLen) => if i < |s.h.w.sealed| { ArriveKeepsOk(s, i, maxLen); }
      case Noise(typ, number, maxLen) => NoiseKeepsOk(s, Record(typ, number, Garbage), maxLen);
      case Peek => PeekKeepsOk(s);
      case Deliver => if s.r.hasMessage && CurrentComplete(s.r) { DeliverKeepsOk(s); }
      case ReadKeys => KeysKeepOk(s);
    }
  }

  lemma InitOk()
    ensures SystemOk(Init())
  {
    H.StartKeepsHistory();
    DtlsReader.StartOk();
  }

  lemma {:induction false} RunKeepsOk(s: System, es: seq<Event>)
    requires SystemOk(s) && Paced(s, es) && Run(s, es).Some?
    ensures SystemOk(Run(s, es).value)
    decreases |es|
  {
    if es != [] {
      StepKeepsOk(s, es[0]);
      RunKeepsOk(Step(s, es[0]).value, es[1..]);
    }
  }

  // ---------- Main results ----------

  /** A complete message that agrees with what was sent is what was sent. */
  lemma CompleteIsSent(p: Partial, data: bytes)
    requires Complete(p) && Agrees(p, data)
    ensures Raw(p) == data
  {
    ParsedIsMessage(data);
    var (h, body) := Parsed(data, 0).value;
    hide Parsed, ParseFragment;
    assert Raw(p)[HM_HEADER_LENGTH..] == body;
    assert Message(h.typ, h.seqNum, body) == WholeHeader(h.typ, h.seqNum, |body|) + body;
  }

  /** In every run of a sender that cuts, retransmits, refuses and re-cuts under
      changing MTUs and keys, over a network that loses, duplicates and reorders,
      with a receiver that keeps within a round of message numbers: the messages
      delivered are the first messages sent, each of them byte for byte with its
      header, in order and once, and each came from records of one read epoch. */
  lemma DeliveredIsPrefixOfSent(es: seq<Event>, k: nat)
    requires Paced(Init(), es) && Run(Init(), es).Some?
    requires k < |Run(Init(), es).value.delivered|
    ensures var s := Run(Init(), es).value;
            && |s.delivered| <= |s.h.w.transcript|
            && Complete(s.delivered[k]) && Raw(s.delivered[k]) == s.h.w.transcript[k]
            && exists g :: s.delivered[k].gens == {g}
  {
    InitOk();
    RunKeepsOk(Init(), es);
    var s := Run(Init(), es).value;
    assert DeliveredTrue(s, k);
    CompleteIsSent(s.delivered[k], s.h.w.transcript[k]);
  }

  lemma PeekIsNext(s: System)
    requires SystemOk(s) && CurrentComplete(s.r)
    ensures |s.delivered| < |s.h.w.transcript|
    ensures Raw(s.r.slots[s.r.readSeq % N].value) == s.h.w.transcript[|s.delivered|]
  {
    CurrentTrue(s);
    CompleteIsSent(s.r.slots[s.r.readSeq % N].value, s.h.w.transcript[|s.delivered|]);
  }

  lemma RunKeepsRing(es: seq<Event>)
    requires Paced(Init(), es) && Run(Init(), es).Some?
    ensures |Run(Init(), es).value.r.slots| == N
  {
    InitOk();
    RunKeepsOk(Init(), es);
  }

  /** What get_message shows is the next message sent. */
  lemma PeekedIsNext(es: seq<Event>)
    requires Paced(Init(), es) && Run(Init(), es).Some?
    ensures var s := Run(Init(), es).value;
            |s.r.slots| == N &&
            match GetMessage(s.r).1
            case None => true
            case Some(raw) =>
              |s.delivered| < |s.h.w.transcript| && raw == s.h.w.transcript[|s.delivered|]
  {
    InitOk();
    RunKeepsOk(Init(), es);
    RunKeepsRing(es);
    hide SystemOk;
    if CurrentComplete(Run(Init(), es).value.r) { PeekIsNext(Run(Init(), es).value); }
  }

  lemma StepKeepsAccepted(s: System, e: Event)
    requires RingOk(s.r) && AcceptedOk(s) && Step(s, e).Some?
    ensures RingOk(Step(s, e).value.r) && AcceptedOk(Step(s, e).value)
  {
    hide RingOk, OpenRecord, H.Step;
    assert |s.r.slots| == N by { RingSize(s.r); }
    match e {
      case Send(event) =>
      case Arrive(i, maxLen) => if i < |s.h.w.sealed| { ReceiveKeepsAccepted(s, s.h.w.sealed[i], maxLen); }
      case Noise(typ, number, maxLen) => ReceiveKeepsAccepted(s, Record(typ, number, Garbage), maxLen);
      case Peek => GetKeepsRing(s.r);
      case Deliver => if s.r.hasMessage && CurrentComplete(s.r) { NextKeepsRing(s.r); }
      case ReadKeys => SetReadStateKeepsRing(s.r);
    }
  }

  lemma RingSize(st: Reader)
    requires RingOk(st)
    ensures |st.slots| == N && st.readSeq < SEQ16
  {}

  lemma ReceiveKeepsAccepted(s: System, rec: Record, maxLen: nat)
    requires RingOk(s.r) && AcceptedOk(s)
    ensures RingOk(Receive(s, rec, maxLen).r) && AcceptedOk(Receive(s, rec, maxLen))
  {
    RingSize(s.r);
    OpenEffect(s, rec);
    OpenKeepsRing(s.r, rec, maxLen);
    var (r', status, plain) := OpenRecord(s.r, rec);
    RingIgnores(s.r, r'.window, r'.ccs);
    hide RingOk, OpenRecord;
    FragmentsKeepRing(r', plain, maxLen);
  }

  lemma {:induction false} RunKeepsAccepted(s: System, es: seq<Event>)
    requires RingOk(s.r) && AcceptedOk(s) && Run(s, es).Some?
    ensures AcceptedOk(Run(s, es).value)
    decreases |es|
  {
    if es != [] {
      StepKeepsAccepted(s, es[0]);
      RunKeepsAccepted(Step(s, es[0]).value, es[1..]);
    }
  }

  /** In every run, whatever its pace, no record number is accepted twice under
      the same keys. */
  lemma AcceptedOnce(es: seq<Event>, i: nat, j: nat)
    requires Run(Init(), es).Some? && i < j < |Run(Init(), es).value.accepted|
    ensures var s := Run(Init(), es).value; s.accepted[i] != s.accepted[j]
  {
    DtlsReader.StartOk();
    RunKeepsAccepted(Init(), es);
  }

  /** Messages are only ever added. */
  lemma {:induction false} TranscriptGrows(s: System, es: seq<Event>)
    requires H.HistoryOk(s.h) && |s.r.slots| == N && Run(s, es).Some?
    ensures |s.h.w.transcript| <= |Run(s, es).value.h.w.transcript|
    decreases |es|
  {
    hide H.HistoryOk, H.Step;
    if es != [] {
      var s' := Step(s, es[0]).value;
      if es[0].Send? {
        H.StepKeepsHistory(s.h, es[0].event);
        H.StepExtends(s.h, es[0].event);
      }
      TranscriptGrows(s', es[1..]);
    }
  }
}
