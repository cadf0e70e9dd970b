/** The ChangeCipherSpec of a DTLS handshake over whole runs: the receiver knows
    of one exactly when one that was sent has arrived. */
module DtlsCcs {
  import opened Bytes
  import opened Reassembly
  import opened DtlsWire
  import opened DtlsReader
  import opened DtlsRecords
  import W = DtlsWriter
  import H = DtlsHistory
  import opened DtlsFlight
  import opened DtlsSystem

  /** A ChangeCipherSpec as it is sent before there are keys. */
  predicate IsCcs(rec: Record) { rec.typ == 20 && rec.body == Sealed(0, [1]) }

  /** Sealed record i is one, and has been opened. */
  predicate CcsAt(s: System, i: nat) {
    i < |s.h.w.sealed| && IsCcs(s.h.w.sealed[i]) && (0, s.h.w.sealed[i].number) in s.accepted
  }

  ghost predicate CcsArrived(s: System) { exists i: nat :: CcsAt(s, i) }

  predicate SealedAs(s: System, a: (nat, nat), i: nat) {
    && i < |s.h.w.sealed| && s.h.w.sealed[i].body.Sealed?
    && s.h.w.sealed[i].body.gen == a.0 && s.h.w.sealed[i].number == a.1
  }

  ghost predicate WasSealed(s: System, a: (nat, nat)) { exists i: nat :: SealedAs(s, a, i) }

  /** The receiver knows of a ChangeCipherSpec exactly when one has arrived and no
      read keys were installed since; whatever was opened had been sealed; and the
      window knows what was opened. */
  ghost predicate CcsOk(s: System) {
    && H.HistoryOk(s.h) && |s.r.slots| == N
    && (s.r.ccs <==> s.r.gen == 0 && CcsArrived(s))
    && (forall a | a in s.accepted :: WasSealed(s, a))
    && (forall a | a in s.accepted :: a.0 <= s.r.gen && (a.0 == s.r.gen ==> a.1 in s.r.window))
    && (forall n | n in s.r.window :: (s.r.gen, n) in s.accepted)
  }

  /** No two sealed records have the same keys and the same number. */
  lemma OneRecord(w: W.Writer, i: nat, j: nat)
    requires NumbersOk(w) && i < |w.sealed| && j < |w.sealed| && w.sealed[i].body.Sealed? && w.sealed[j].body.Sealed?
    requires w.sealed[i].body.gen == w.sealed[j].body.gen && w.sealed[i].number == w.sealed[j].number
    ensures i == j
  {
    assert i < j ==> Ascending(w.sealed[i], w.sealed[j]);
    assert j < i ==> Ascending(w.sealed[j], w.sealed[i]);
  }

  /** What has been sealed and not opened before is no ChangeCipherSpec that has
      arrived. */
  lemma SendCcs(s: System, e: W.Event)
    requires CcsOk(s) && H.Step(s.h, e).Some?
    ensures CcsOk(s.(h := H.Step(s.h, e).value))
  {
    hide H.HistoryOk, H.Step, H.Extends, IsCcs;
    H.StepKeepsHistory(s.h, e);
    H.StepExtends(s.h, e);
    var s' := s.(h := H.Step(s.h, e).value);
    H.ExtendsParts(s.h, s'.h);
    Numbers(s'.h);
    hide NumbersOk;
    forall a | a in s.accepted ensures WasSealed(s', a) {
      assert WasSealed(s, a);
      var i: nat :| SealedAs(s, a, i);
      assert SealedAs(s', a, i);
    }
    if CcsArrived(s) {
      var i: nat :| CcsAt(s, i);
      assert CcsAt(s', i);
    }
    if CcsArrived(s') {
      var i: nat :| CcsAt(s', i);
      EarlierCcs(s, s', i);
    }
  }

  lemma EarlierCcs(s: System, s': System, i: nat)
    requires s.h.w.sealed <= s'.h.w.sealed && NumbersOk(s'.h.w) && s'.accepted == s.accepted && CcsAt(s', i)
    requires forall a | a in s.accepted :: WasSealed(s, a)
    ensures CcsArrived(s)
  {
    hide NumbersOk;
    assert WasSealed(s, (0, s'.h.w.sealed[i].number));
    var j: nat :| SealedAs(s, (0, s'.h.w.sealed[i].number), j);
    assert s.h.w.sealed[j] == s'.h.w.sealed[j];
    OneRecord(s'.h.w, i, j);
    assert CcsAt(s, i);
  }

  lemma Numbers(h: H.History)
    requires H.HistoryOk(h)
    ensures NumbersOk(h.w)
  {}

  /** A record that does not open changes nothing. */
  lemma NoiseCcs(s: System, rec: Record, maxLen: nat)
    requires CcsOk(s) && forall plain :: !Arrives(s.r, rec, plain)
    ensures Receive(s, rec, maxLen) == s
  {
    PassedOver(s.r, rec, maxLen);
    assert s.accepted + [] == s.accepted;
  }

  /** What an opened record does to the receiver, but for the messages. */
  lemma OpenedCcs(s: System, i: nat, maxLen: nat)
    requires |s.r.slots| == N && i < |s.h.w.sealed| && s.h.w.sealed[i].body.Sealed?
    requires Arrives(s.r, s.h.w.sealed[i], s.h.w.sealed[i].body.plain)
    ensures var (rec, s') := (s.h.w.sealed[i], Receive(s, s.h.w.sealed[i], maxLen));
            rec.body.gen == s.r.gen &&
            if |rec.body.plain| > 16384 then s' == s
            else
              && s' == s.(r := s'.r, accepted := s.accepted + [(s.r.gen, rec.number)]) && |s'.r.slots| == N
              && s'.r.gen == s.r.gen && s'.r.window == s.r.window + {rec.number}
              && s'.r.ccs == (s.r.ccs || IsCcs(rec))
  {
    var rec := s.h.w.sealed[i];
    var plain := rec.body.plain;
    assert s.accepted + [] == s.accepted;
    Opens(s.r, rec, plain);
    if |plain| > 16384 || rec.typ !in {20, 22} {
      NotForTheHandshake(s.r, rec, plain, maxLen);
    } else if rec.typ == 20 {
      CcsExact(s.r, rec, plain, maxLen);
    } else {
      HandshakeExact(s.r, rec, plain, maxLen);
    }
    hide OpenHandshake, OpenRecord, Fragments;
  }

  lemma ArriveCcs(s: System, i: nat, maxLen: nat)
    requires CcsOk(s) && i < |s.h.w.sealed|
    ensures CcsOk(Receive(s, s.h.w.sealed[i], maxLen))
  {
    hide H.HistoryOk, OpenHandshake, OpenRecord, Arrives;
    var rec := s.h.w.sealed[i];
    if rec.body.Sealed? && Arrives(s.r, rec, rec.body.plain) {
      OpenedCcs(s, i, maxLen);
      hide Receive;
      if |rec.body.plain| <= 16384 { AcceptCcs(s, Receive(s, rec, maxLen), i); }
    } else {
      forall plain ensures !Arrives(s.r, rec, plain) { OnlyItsOwn(s.r, rec, plain); }
      NoiseCcs(s, rec, maxLen);
    }
  }

  lemma OnlyItsOwn(st: Reader, rec: Record, plain: bytes)
    ensures Arrives(st, rec, plain) ==> rec.body.Sealed? && Arrives(st, rec, rec.body.plain)
  {}

  lemma AcceptCcs(s: System, s': System, i: nat)
    requires CcsOk(s) && i < |s.h.w.sealed| && s.h.w.sealed[i].body.Sealed? && s.h.w.sealed[i].body.gen == s.r.gen
    requires s' == s.(r := s'.r, accepted := s.accepted + [(s.r.gen, s.h.w.sealed[i].number)]) && |s'.r.slots| == N
    requires s'.r.gen == s.r.gen && s'.r.window == s.r.window + {s.h.w.sealed[i].number}
    requires s'.r.ccs == (s.r.ccs || IsCcs(s.h.w.sealed[i]))
    ensures CcsOk(s')
  {
    Numbers(s.h);
    hide H.HistoryOk, NumbersOk, WasSealed, CcsArrived, IsCcs;
    StillSealed(s, s', i);
    if s.r.gen == 0 { NowArrived(s, s', i); }
  }

  lemma StillSealed(s: System, s': System, i: nat)
    requires i < |s.h.w.sealed| && s.h.w.sealed[i].body.Sealed? && s'.h == s.h
    requires s'.accepted == s.accepted + [(s.h.w.sealed[i].body.gen, s.h.w.sealed[i].number)]
    requires forall a | a in s.accepted :: WasSealed(s, a)
    ensures forall a | a in s'.accepted :: WasSealed(s', a)
  {
    forall a | a in s'.accepted ensures WasSealed(s', a) {
      if a in s.accepted {
        assert WasSealed(s, a);
        var j: nat :| SealedAs(s, a, j);
        assert SealedAs(s', a, j);
      } else {
        assert SealedAs(s', a, i);
      }
    }
  }

  lemma NowArrived(s: System, s': System, i: nat)
    requires NumbersOk(s.h.w) && i < |s.h.w.sealed| && s.h.w.sealed[i].body.Sealed? && s.h.w.sealed[i].body.gen == 0
    requires s'.h == s.h && s'.accepted == s.accepted + [(0, s.h.w.sealed[i].number)]
    ensures CcsArrived(s') <==> CcsArrived(s) || IsCcs(s.h.w.sealed[i])
  {
    hide NumbersOk;
    if IsCcs(s.h.w.sealed[i]) { assert CcsAt(s', i); }
    if CcsArrived(s) {
      var j: nat :| CcsAt(s, j);
      assert CcsAt(s', j);
    }
    if CcsArrived(s') {
      var j: nat :| CcsAt(s', j);
      if s.h.w.sealed[j].number == s.h.w.sealed[i].number { OneRecord(s.h.w, i, j); } else { assert CcsAt(s, j); }
    }
  }

  lemma StepCcs(s: System, e: Event)
    requires CcsOk(s) && Step(s, e).Some?
    ensures CcsOk(Step(s, e).value)
  {
    hide H.HistoryOk, H.Step, OpenHandshake, OpenRecord;
    match e {
      case Send(event) => SendCcs(s, event);
      case Arrive(i, maxLen) => if i < |s.h.w.sealed| { ArriveCcs(s, i, maxLen); }
      case Noise(typ, number, maxLen) => NoiseCcs(s, Record(typ, number, Garbage), maxLen);
      case Peek => QuietCcs(s, Step(s, e).value);
      case Deliver => QuietCcs(s, Step(s, e).value);
      case ReadKeys =>
        KeysExact(s.r);
        var s' := Step(s, e).value;
        forall a | a in s'.accepted ensures WasSealed(s', a) {
          assert WasSealed(s, a);
          var i: nat :| SealedAs(s, a, i);
          assert SealedAs(s', a, i);
        }
    }
  }

  lemma QuietCcs(s: System, s': System)
    requires CcsOk(s) && s' == s.(r := s'.r, delivered := s'.delivered) && |s'.r.slots| == N
    requires s'.r.ccs == s.r.ccs && s'.r.gen == s.r.gen && s'.r.window == s.r.window
    ensures CcsOk(s')
  {
    hide H.HistoryOk;
    forall a | a in s'.accepted ensures WasSealed(s', a) {
      assert WasSealed(s, a);
      var i: nat :| SealedAs(s, a, i);
      assert SealedAs(s', a, i);
    }
    if CcsArrived(s) {
      var i: nat :| CcsAt(s, i);
      assert CcsAt(s', i);
    }
    if CcsArrived(s') {
      var i: nat :| CcsAt(s', i);
      assert CcsAt(s, i);
    }
  }

  lemma {:induction false} RunCcs(s: System, es: seq<Event>)
    requires CcsOk(s) && Run(s, es).Some?
    ensures CcsOk(Run(s, es).value)
    decreases |es|
  {
    hide CcsOk, Step;
    SlotsFor(s);
    if es != [] {
      StepCcs(s, es[0]);
      RunCcs(Step(s, es[0]).value, es[1..]);
    }
  }

  lemma SlotsFor(s: System)
    requires CcsOk(s)
    ensures |s.r.slots| == N
  {
    hide H.HistoryOk;
  }

  lemma StartCcs()
    ensures CcsOk(Init())
  {
    H.StartKeepsHistory();
    hide H.HistoryOk;
    forall i: nat ensures !CcsAt(Init(), i) {}
  }

  /** In every run, however records are lost, repeated and reordered: before the
      first read keys the receiver knows of a ChangeCipherSpec if and only if one
      that the sender sealed has been opened; afterwards it knows of none. */
  lemma CcsExactOverRuns(es: seq<Event>)
    requires Run(Init(), es).Some?
    ensures var s := Run(Init(), es).value; s.r.ccs <==> s.r.gen == 0 && CcsArrived(s)
  {
    StartCcs();
    RunCcs(Init(), es);
    hide H.HistoryOk, Run;
  }

  /** A ChangeCipherSpec that was sent is known of once it arrives, before the first
      read keys and no later than 63 numbers after another: also if it had come
      before. */
  lemma SentCcsArrives(es: seq<Event>, i: nat, maxLen: nat)
    requires Run(Init(), es).Some?
    requires var s := Run(Init(), es).value;
             && i < |s.h.w.sealed| && IsCcs(s.h.w.sealed[i]) && s.r.gen == 0
             && forall n | n in s.r.window :: n < s.h.w.sealed[i].number + 64
    ensures Receive(Run(Init(), es).value, Run(Init(), es).value.h.w.sealed[i], maxLen).r.ccs
  {
    StartCcs();
    RunCcs(Init(), es);
    hide CcsOk, Run, IsCcs, Receive;
    CcsArrives(Run(Init(), es).value, i, maxLen);
  }

  lemma CcsArrives(s: System, i: nat, maxLen: nat)
    requires CcsOk(s) && i < |s.h.w.sealed| && IsCcs(s.h.w.sealed[i]) && s.r.gen == 0
    requires forall n | n in s.r.window :: n < s.h.w.sealed[i].number + 64
    ensures Receive(s, s.h.w.sealed[i], maxLen).r.ccs
  {
    Numbers(s.h);
    NumberEpoch(s.h.w, i);
    hide H.HistoryOk, NumbersOk, Receive;
    var rec := s.h.w.sealed[i];
    if rec.number in s.r.window {
      forall plain ensures !Arrives(s.r, rec, plain) {}
      NoiseCcs(s, rec, maxLen);
      assert CcsAt(s, i);
    } else {
      assert Arrives(s.r, rec, [1]);
      OpenedCcs(s, i, maxLen);
    }
  }

  /** The number of a record begins with its epoch. */
  lemma NumberEpoch(w: W.Writer, i: nat)
    requires NumbersOk(w) && i < |w.sealed| && w.sealed[i].body.Sealed?
    ensures w.sealed[i].number / 0x1_0000_0000_0000 == w.sealed[i].body.gen % 0x1_0000
  {
    assert NumberOk(w, w.sealed[i]);
    var t :| 0 <= t < SEQ48 && NumberedBy(w, w.sealed[i], t);
  }

  // ---------- The sender's part ----------

  /** Of a ChangeCipherSpec that lies behind the position there is a record. */
  lemma {:induction false} CcsInTile(flight: seq<W.OutMsg>, i: nat, off: nat, recs: seq<Record>, k: nat) returns (m: nat)
    requires Tile(flight, i, off, recs).Some? && i <= k < Tile(flight, i, off, recs).value.0 && k < |flight| && flight[k].isCcs
    ensures m < |recs| && recs[m].typ == 20 && recs[m].body.Sealed? && recs[m].body.plain == [1]
    ensures Epoch(recs[m].body.gen) == flight[k].epoch
    decreases |recs|
  {
    hide Parsed;
    var (i', off') := Follows(flight, i, off, recs[0]).value;
    if i == k {
      m := 0;
    } else {
      m := CcsInTile(flight, i', off', recs[1..], k);
      m := m + 1;
    }
  }
}
