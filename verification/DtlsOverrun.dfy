/** The pace required of a sender is needed: one message more, and a message is
    delivered in the place of another. */
module DtlsOverrun {
  import opened Bytes
  import opened Reassembly
  import opened ReplayWindow
  import opened DtlsWire
  import opened DtlsReader
  import opened DtlsFlight
  import opened DtlsSystem
  import W = DtlsWriter
  import H = DtlsHistory

  /** An empty message of type 0. */
  function Nth(k: nat): bytes { Message(0, k % SEQ16, []) }

  /** Queueing a message as a flight of its own and sending it. */
  function Round(typ: byte): seq<Event> {
    [Send(W.AddMessage(typ, [])), Send(W.BeginFlush), Send(W.Packet(true))]
  }

  /** n messages, each of them sent, none of which arrives. */
  function Rounds(n: nat): seq<Event> {
    if n == 0 then [Send(W.SetMtu(100))] else Rounds(n - 1) + Round(0)
  }

  predicate Idle(s: System) { s.r == DtlsReader.Start() && s.accepted == [] && s.delivered == [] }

  /** n messages have been queued and sent. */
  predicate Sent(w: W.Writer, n: nat) {
    && w.transcript == seq(n, k requires 0 <= k < n => Nth(k))
    && w.gen == 0 && w.cur == W.NullCipher() && w.mtu == 100 && |w.sealed| == w.nextSeq == n && w.writeSeq == n % SEQ16
    && (w.complete || (w.flight == [] && w.written == 0 && w.offset == 0))
  }

  lemma {:induction false} RunAppend(s: System, a: seq<Event>, b: seq<Event>)
    requires |s.r.slots| == N && Run(s, a).Some?
    ensures Run(s, a + b) == Run(Run(s, a).value, b)
    decreases |a|
  {
    hide Step;
    if a == [] {
      assert a + b == b;
    } else {
      assert (a + b)[0] == a[0] && (a + b)[1..] == a[1..] + b;
      RunAppend(Step(s, a[0]).value, a[1..], b);
    }
  }

  lemma EmptyMessage(typ: byte, k: nat)
    requires k < SEQ16
    ensures |Message(typ, k, [])| == HM_HEADER_LENGTH
    ensures Parsed(Message(typ, k, []), 0) == Some((Header(typ, 0, k, 0, 0), []))
  {
    Limits();
    MessageParses(typ, k, []);
  }

  lemma TwoSteps(s: System, a: Event, b: Event)
    requires |s.r.slots| == N && Step(s, a).Some?
    ensures Run(s, [a, b]) == Step(Step(s, a).value, b)
  {
    hide Step;
    assert [a, b][1..] == [b] && [b][1..] == [];
    var s1 := Step(s, a).value;
    assert Run(s1, [b]) == match Step(s1, b) case None => None case Some(s2) => Run(s2, []);
  }

  // ---------- What one round does ----------

  /** The record of an empty message under the null cipher. */
  function EmptyRecord(typ: byte, n: nat): Record {
    Record(HANDSHAKE, n, Sealed(0, Message(typ, n % SEQ16, [])))
  }

  /** One empty message is due, and nothing stands in the way of sealing it. */
  predicate EmptyDue(w: W.Writer, typ: byte, n: nat) {
    && w.flight == [W.OutMsg(Message(typ, n % SEQ16, []), 0, false)] && w.written == 0 && w.offset == 0
    && w.gen == 0 && w.cur == W.NullCipher() && w.mtu == 100 && w.nextSeq == n && n + 1 < SEQ48
  }

  function Sealing(w: W.Writer, typ: byte, n: nat): W.Writer {
    w.(nextSeq := n + 1, sealed := w.sealed + [EmptyRecord(typ, n)])
  }

  lemma SealRecordEmpty(w: W.Writer, typ: byte, n: nat)
    requires EmptyDue(w, typ, n)
    ensures W.SealRecord(w, HANDSHAKE, Message(typ, n % SEQ16, []), false, 100) == (Sealing(w, typ, n), Some(EmptyRecord(typ, n)))
  {
    EmptyMessage(typ, n % SEQ16);
    hide Message;
  }

  lemma SealNextEmpty(w: W.Writer, typ: byte, n: nat)
    requires EmptyDue(w, typ, n)
    ensures W.SealNext(w, 100) == (Sealing(w, typ, n), W.SealSuccess(EmptyRecord(typ, n), 25))
  {
    EmptyMessage(typ, n % SEQ16);
    SealRecordEmpty(w, typ, n);
    assert W.Piece(Header(typ, 0, n % SEQ16, 0, 0), [], 0, 0) == Message(typ, n % SEQ16, []);
    hide Message, Parsed, W.Piece, W.SealRecord, EmptyRecord;
  }

  lemma SealEmpty(w: W.Writer, typ: byte, n: nat)
    requires EmptyDue(w, typ, n)
    ensures var rec := EmptyRecord(typ, n);
            W.Step(w, W.Packet(true)) == Some(Sealing(w, typ, n).(written := 1, log := w.log + [rec]))
  {
    SealMoreEmpty(w, typ, n);
    assert |w.flight| == 1 && w.mtu == 100;
    hide Message, EmptyRecord, EmptyDue, W.SealMore;
  }

  lemma SealMoreDone(w: W.Writer, room: nat, recs: seq<Record>)
    requires w.written >= |w.flight| && recs != []
    ensures W.SealMore(w, room, recs) == (w, Some(recs))
  {
    hide W.SealNext;
  }

  lemma SealMoreOn(w: W.Writer, room: nat, w': W.Writer, rec: Record, len: nat)
    requires w.written < |w.flight| && W.SealNext(w, room) == (w', W.SealSuccess(rec, len)) && len <= room
    ensures W.SealMore(w, room, []) == W.SealMore(w'.(written := w.written + 1), room - len, [rec])
  {
    hide W.SealNext;
    assert [] + [rec] == [rec];
  }

  lemma SealMoreEmpty(w: W.Writer, typ: byte, n: nat)
    requires EmptyDue(w, typ, n)
    ensures W.SealMore(w, 100, []) == (Sealing(w, typ, n).(written := 1), Some([EmptyRecord(typ, n)]))
  {
    hide Message, Parsed, EmptyRecord, W.SealNext, W.SealMore;
    SealNextEmpty(w, typ, n);
    var (w1, rec) := (Sealing(w, typ, n), EmptyRecord(typ, n));
    assert |w.flight| == 1 && w.written == 0 && w1.flight == w.flight;
    hide EmptyDue, Sealing;
    SealMoreOn(w, 100, w1, rec, 25);
    SealMoreDone(w1.(written := 1), 75, [rec]);
  }

  lemma QueueEmpty(w: W.Writer, typ: byte, n: nat)
    requires Sent(w, n)
    ensures var c := if w.complete then W.Clear(w) else w;
            var m := Message(typ, n % SEQ16, []);
            W.Step(w, W.AddMessage(typ, [])) ==
            Some(c.(flight := [W.OutMsg(m, 0, false)], writeSeq := (n + 1) % SEQ16, transcript := w.transcript + [m]))
  {
    EmptyMessage(typ, n % SEQ16);
    Limits();
    hide Message, Parsed;
    assert [] + [W.OutMsg(Message(typ, n % SEQ16, []), 0, false)] == [W.OutMsg(Message(typ, n % SEQ16, []), 0, false)];
    assert (n % SEQ16 + 1) % SEQ16 == (n + 1) % SEQ16;
  }

  lemma RoundWriter(w: W.Writer, typ: byte, n: nat) returns (w1: W.Writer, w2: W.Writer, w3: W.Writer)
    requires Sent(w, n) && n + 1 < SEQ48
    ensures W.Step(w, W.AddMessage(typ, [])) == Some(w1)
    ensures W.Step(w1, W.BeginFlush) == Some(w2) && W.Step(w2, W.Packet(true)) == Some(w3)
    ensures w3.transcript == w.transcript + [Message(typ, n % SEQ16, [])] && w3.sealed == w.sealed + [EmptyRecord(typ, n)]
    ensures w3.gen == 0 && w3.cur == W.NullCipher() && w3.mtu == 100 && w3.nextSeq == n + 1 && w3.complete
    ensures w3.writeSeq == (n + 1) % SEQ16
  {
    QueueEmpty(w, typ, n);
    w1 := W.Step(w, W.AddMessage(typ, [])).value;
    w2 := w1.(complete := true);
    assert W.Step(w1, W.BeginFlush) == Some(w2);
    hide Message, EmptyRecord, W.Step;
    SealEmpty(w2, typ, n);
    w3 := W.Step(w2, W.Packet(true)).value;
  }

  lemma SendStep(s: System, e: W.Event)
    requires |s.r.slots| == N && W.Step(s.h.w, e).Some?
    ensures Step(s, Send(e)).Some?
    ensures var s' := Step(s, Send(e)).value; s'.h.w == W.Step(s.h.w, e).value && s' == s.(h := s'.h)
  {
    hide W.Step;
  }

  lemma SentNext(w: W.Writer, w': W.Writer, n: nat)
    requires Sent(w, n) && w'.transcript == w.transcript + [Nth(n)] && |w'.sealed| == |w.sealed| + 1
    requires w'.gen == 0 && w'.cur == W.NullCipher() && w'.mtu == 100 && w'.nextSeq == n + 1 && w'.complete
    requires w'.writeSeq == (n + 1) % SEQ16
    ensures Sent(w', n + 1)
  {
    hide Message;
    assert w.transcript + [Nth(n)] == seq(n + 1, k requires 0 <= k < n + 1 => Nth(k));
  }

  lemma RoundRun(s: System, typ: byte, n: nat) returns (s': System)
    requires Idle(s) && Sent(s.h.w, n) && n + 1 < SEQ48
    ensures Run(s, Round(typ)) == Some(s') && Idle(s')
    ensures s'.h.w.transcript == s.h.w.transcript + [Message(typ, n % SEQ16, [])]
    ensures s'.h.w.sealed == s.h.w.sealed + [EmptyRecord(typ, n)]
    ensures typ == 0 ==> Sent(s'.h.w, n + 1)
  {
    assert |s.r.slots| == N;
    var (a, b, c) := (Send(W.AddMessage(typ, [])), Send(W.BeginFlush), Send(W.Packet(true)));
    assert Round(typ) == [a, b, c];
    hide W.Step, H.Step, Message, EmptyRecord, Step, Sent, Run;
    var w1, w2, w3 := RoundWriter(s.h.w, typ, n);
    SendStep(s, W.AddMessage(typ, []));
    var s1 := Step(s, a).value;
    SendStep(s1, W.BeginFlush);
    var s2 := Step(s1, b).value;
    SendStep(s2, W.Packet(true));
    s' := Step(s2, c).value;
    ThreeSteps(s, a, b, c);
    if typ == 0 { SentNext(s.h.w, s'.h.w, n); }
  }

  lemma ThreeSteps(s: System, a: Event, b: Event, c: Event)
    requires |s.r.slots| == N && Step(s, a).Some? && Step(Step(s, a).value, b).Some?
    ensures Run(s, [a, b, c]) == Step(Step(Step(s, a).value, b).value, c)
  {
    hide Step;
    var s1 := Step(s, a).value;
    TwoSteps(s1, b, c);
    assert [a, b, c][0] == a && [a, b, c][1..] == [b, c];
  }

  predicate SentIn(s: System, n: nat) {
    Run(Init(), Rounds(n)) == Some(s) && Idle(s) && Sent(s.h.w, n)
  }

  lemma RoundsMore(s0: System, n: nat) returns (s: System)
    requires SentIn(s0, n) && n + 1 < SEQ48
    ensures SentIn(s, n + 1)
  {
    hide Sent, Run, Step, Message, EmptyRecord;
    s := RoundRun(s0, 0, n);
    assert |Init().r.slots| == N && |s0.r.slots| == N;
    assert Rounds(n + 1) == Rounds(n) + Round(0);
    hide Init, Idle, Rounds, Round;
    RunAppend(Init(), Rounds(n), Round(0));
  }

  lemma {:induction false} RoundsRun(n: nat) returns (s: System)
    requires n < SEQ48
    ensures SentIn(s, n)
  {
    hide SentIn;
    if n == 0 {
      s := MtuRun();
    } else {
      var s0 := RoundsRun(n - 1);
      s := RoundsMore(s0, n - 1);
    }
  }

  lemma MtuRun() returns (s: System)
    ensures SentIn(s, 0)
  {
    SendStep(Init(), W.SetMtu(100));
    s := Step(Init(), Send(W.SetMtu(100))).value;
    hide Step, H.Step;
    OneStep(Init(), Send(W.SetMtu(100)));
  }

  // ---------- The message that comes out of turn ----------

  /** The last message queued has the number of the first. */
  function LastRecord(): Record { EmptyRecord(1, SEQ16) }

  function LastPartial(): Partial { Partial(1, 0, [], {0}) }

  function ReaderAfter(): Reader {
    DtlsReader.Start().(slots := DtlsReader.Start().slots[0 := Some(LastPartial())], window := {SEQ16})
  }

  lemma ReadLast()
    ensures OpenHandshake(DtlsReader.Start(), LastRecord(), 0) == (ReaderAfter(), Success)
    ensures OpenRecord(DtlsReader.Start(), LastRecord()).1 == Success
  {
    EmptyMessage(1, 0);
    var st := DtlsReader.Start();
    var plain := Message(1, 0, []);
    assert ParseFragment(plain) == Ok((Header(1, 0, 0, 0, 0), []), []) by { ParseLast(); }
    var st1 := st.(window := {SEQ16});
    assert LastRecord() == Record(HANDSHAKE, SEQ16, Sealed(0, plain));
    hide Message, ParseFragment, LastRecord;
    assert {} + {SEQ16} == {SEQ16};
    assert OpenRecord(st, LastRecord()) == (st1, Success, plain);
    OneFragment(st1, plain, Header(1, 0, 0, 0, 0), [], 0);
    assert Nothing(1, 0, 0, 0) == LastPartial();
    assert Accept(st1, Header(1, 0, 0, 0, 0), [], 0) == (ReaderAfter(), None);
  }

  lemma ParseLast()
    ensures ParseFragment(Message(1, 0, [])) == Ok((Header(1, 0, 0, 0, 0), []), [])
  {
    Limits();
    ParseEncodeFragment(Header(1, 0, 0, 0, 0), [], []);
    assert Message(1, 0, []) + [] == Message(1, 0, []);
  }

  /** What the receiver does when only the last record arrives. */
  lemma ReceiveLast(s: System) returns (s': System)
    requires Idle(s) && SEQ16 < |s.h.w.sealed| && s.h.w.sealed[SEQ16] == LastRecord()
    ensures Run(s, [Arrive(SEQ16, 0), Peek, Deliver]) == Some(s')
    ensures s'.h == s.h && s'.delivered == [LastPartial()]
  {
    ArriveLast(s);
    PeekLast(s);
    DeliverLast(s);
    var s1 := Arrived(s);
    s' := Step(Peeked(s), Deliver).value;
    assert |s.r.slots| == N && |s1.r.slots| == N;
    hide Step, LastPartial, Arrived, Peeked, LastRecord;
    TwoSteps(s1, Peek, Deliver);
    OneStep(s, Arrive(SEQ16, 0));
    RunAppend(s, [Arrive(SEQ16, 0)], [Peek, Deliver]);
    assert [Arrive(SEQ16, 0)] + [Peek, Deliver] == [Arrive(SEQ16, 0), Peek, Deliver];
  }

  function Arrived(s: System): System { s.(r := ReaderAfter(), accepted := [(0, SEQ16)]) }

  function Peeked(s: System): System { Arrived(s).(r := ReaderAfter().(hasMessage := true)) }

  lemma ArriveLast(s: System)
    requires Idle(s) && SEQ16 < |s.h.w.sealed| && s.h.w.sealed[SEQ16] == LastRecord()
    ensures Step(s, Arrive(SEQ16, 0)) == Some(Arrived(s))
  {
    ReadLast();
    assert LastRecord().number == SEQ16;
    hide OpenHandshake, OpenRecord, LastRecord, ReaderAfter;
    assert [] + [(0 as nat, SEQ16 as nat)] == [(0, SEQ16)];
  }

  lemma PeekLast(s: System)
    ensures Step(Arrived(s), Peek) == Some(Peeked(s))
  {
    assert CurrentComplete(ReaderAfter());
  }

  lemma DeliverLast(s: System)
    requires s.delivered == []
    ensures Step(Peeked(s), Deliver).Some?
    ensures var s' := Step(Peeked(s), Deliver).value; s'.h == s.h && s'.delivered == [LastPartial()]
  {
    assert CurrentComplete(Peeked(s).r);
    hide NextMessage;
    assert [] + [LastPartial()] == [LastPartial()];
  }

  lemma OneStep(s: System, e: Event)
    requires |s.r.slots| == N && Step(s, e).Some?
    ensures Run(s, [e]) == Step(s, e)
  {
    hide Step;
    assert [e][1..] == [];
  }

  /** A sender 65537 messages ahead, all of them sent but only the last arriving: it
      has the number of the first, and is delivered as the first. */
  lemma Overrun() returns (es: seq<Event>)
    ensures Run(Init(), es).Some?
    ensures var s := Run(Init(), es).value;
            && |s.h.w.transcript| == SEQ16 + 1 && |s.delivered| == 1
            && Complete(s.delivered[0]) && Raw(s.delivered[0]) != s.h.w.transcript[0]
  {
    var s0 := RoundsRun(SEQ16);
    var s1 := RoundRun(s0, 1, SEQ16);
    var s2 := ReceiveLast(s1);
    var receive := [Arrive(SEQ16, 0), Peek, Deliver];
    es := Rounds(SEQ16) + Round(1) + receive;
    Differ();
    assert s0.h.w.transcript[0] == Nth(0);
    assert |Init().r.slots| == N && |s0.r.slots| == N && |s1.r.slots| == N;
    hide Run, Rounds, Round, Raw, Complete, Nth, Message, LastRecord, EmptyRecord;
    RunAppend(Init(), Rounds(SEQ16), Round(1));
    RunAppend(Init(), Rounds(SEQ16) + Round(1), receive);
  }

  lemma Differ()
    ensures Complete(LastPartial()) && Raw(LastPartial()) != Nth(0)
  {
    assert Raw(LastPartial())[0] == 1 && Nth(0)[0] == 0;
  }

  // ---------- Where prefix delivery ends ----------

  /** The sender is never more than this many messages ahead. */
  predicate AheadAtMost(most: nat, s: System, es: seq<Event>)
    requires |s.r.slots| == N
    decreases |es|
  {
    && |s.h.w.transcript| <= |s.delivered| + most
    && (es != [] && Step(s, es[0]).Some? ==> AheadAtMost(most, Step(s, es[0]).value, es[1..]))
  }

  predicate DeliversPrefix(es: seq<Event>)
    requires Run(Init(), es).Some?
  {
    var s := Run(Init(), es).value;
    && |s.delivered| <= |s.h.w.transcript|
    && forall k | 0 <= k < |s.delivered| :: Complete(s.delivered[k]) && Raw(s.delivered[k]) == s.h.w.transcript[k]
  }

  lemma {:induction false} WithinPace(most: nat, s: System, es: seq<Event>)
    requires |s.r.slots| == N && most <= SEQ16 && AheadAtMost(most, s, es)
    ensures Paced(s, es)
    decreases |es|
  {
    hide Step;
    if es != [] && Step(s, es[0]).Some? { WithinPace(most, Step(s, es[0]).value, es[1..]); }
  }

  /** A run is never further ahead than the messages it sends. */
  lemma {:induction false} AheadBySent(most: nat, s: System, es: seq<Event>)
    requires H.HistoryOk(s.h) && |s.r.slots| == N && Run(s, es).Some?
    requires |Run(s, es).value.h.w.transcript| <= most
    ensures AheadAtMost(most, s, es)
    decreases |es|
  {
    TranscriptGrows(s, es);
    hide H.HistoryOk, H.Step;
    if es != [] {
      if es[0].Send? { H.StepKeepsHistory(s.h, es[0].event); }
      AheadBySent(most, Step(s, es[0]).value, es[1..]);
    }
  }

  /** All runs in which the sender is at most this far ahead deliver what was
      sent, in order, if and only if this is at most 65536 messages. */
  lemma DeliveryExact(most: nat)
    ensures (forall es: seq<Event> | Run(Init(), es).Some? && AheadAtMost(most, Init(), es) :: DeliversPrefix(es))
            <==> most <= SEQ16
  {
    hide Run, Step, Raw, Complete;
    if most <= SEQ16 {
      forall es: seq<Event> | Run(Init(), es).Some? && AheadAtMost(most, Init(), es)
        ensures DeliversPrefix(es)
      {
        WithinPace(most, Init(), es);
        InPrefix(es);
      }
    } else {
      var es := Overrun();
      H.StartKeepsHistory();
      AheadBySent(most, Init(), es);
      assert !DeliversPrefix(es);
    }
  }

  lemma InPrefix(es: seq<Event>)
    requires Run(Init(), es).Some? && Paced(Init(), es)
    ensures DeliversPrefix(es)
  {
    hide Run, Paced, Raw, Complete;
    PrefixLength(es);
    forall k | 0 <= k < |Run(Init(), es).value.delivered|
      ensures Complete(Run(Init(), es).value.delivered[k])
              && Raw(Run(Init(), es).value.delivered[k]) == Run(Init(), es).value.h.w.transcript[k]
    {
      DeliveredIsPrefixOfSent(es, k);
    }
  }

  lemma PrefixLength(es: seq<Event>)
    requires Run(Init(), es).Some? && Paced(Init(), es)
    ensures |Run(Init(), es).value.delivered| <= |Run(Init(), es).value.h.w.transcript|
  {
    hide Run, Paced;
    if Run(Init(), es).value.delivered != [] { DeliveredIsPrefixOfSent(es, 0); }
  }
}
