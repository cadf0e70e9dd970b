/** Where a sender's guarantees end: the MTU, the epoch and the counter. */
module DtlsLimits {
  import opened Bytes
  import opened Reassembly
  import opened DtlsWire
  import opened DtlsWriter
  import opened DtlsFlight

  function Ones(n: nat): (s: bytes)
    ensures |s| == n
  {
    seq(n, _ => 1)
  }

  // ---------- The MTU ----------

  /** A packet is due, and with this MTU there is room for a fragment, keys and
      counters. */
  predicate Due(w: Writer, mtu: nat) {
    w.written < |w.flight| && w.mtu == mtu && CanSeal(w) && RoomFor(w, mtu)
  }

  predicate SealsWhenDue(es: seq<Event>, mtu: nat) {
    var r := Run(Start(), es);
    r.Some? && Due(r.value, mtu) ==> SealPacket(r.value).1.Some?
  }

  /** A body that fills a record to the length that can no longer be expressed. */
  const LARGE := 0xffff - HM_HEADER_LENGTH

  function LargeRun(mtu: nat): seq<Event> {
    [AddMessage(1, Ones(LARGE)), SetMtu(mtu)]
  }

  function LargeWriter(mtu: nat): Writer {
    var m := Message(1, 0, Ones(LARGE));
    Start().(flight := [OutMsg(m, 0, false)], writeSeq := 1, transcript := [m], mtu := mtu)
  }

  lemma LargeRunIs(mtu: nat)
    ensures Run(Start(), LargeRun(mtu)) == Some(LargeWriter(mtu))
  {
    Limits();
    var (a, b) := (AddMessage(1, Ones(LARGE)), SetMtu(mtu));
    var m := Message(1, 0, Ones(LARGE));
    MessageLength(1, 0, Ones(LARGE));
    assert Start().transcript + [m] == [m] && Start().flight + [OutMsg(m, 0, false)] == [OutMsg(m, 0, false)];
    hide Message, Ones;
    assert [a, b][1..] == [b] && [b][1..] == [];
    var w1 := Start().(flight := [OutMsg(m, 0, false)], writeSeq := 1, transcript := [m]);
    assert Step(Start(), a) == Some(w1);
    assert Step(w1, b) == Some(LargeWriter(mtu));
    assert Run(w1, [b]) == Run(LargeWriter(mtu), []);
  }

  lemma MessageLength(typ: byte, s: nat, body: bytes)
    requires s < SEQ16 && |body| < Limit(3)
    ensures |Message(typ, s, body)| == HM_HEADER_LENGTH + |body|
  {}

  lemma LargeRunFails(mtu: nat)
    requires !LengthFits(mtu)
    ensures !SealsWhenDue(LargeRun(mtu), mtu)
  {
    Limits();
    LargeRunIs(mtu);
    MessageParses(1, 0, Ones(LARGE));
    hide Message, Ones, Parsed, Run;
    LargePacketFails(LargeWriter(mtu));
    hide SealPacket;
    assert Due(LargeWriter(mtu), mtu);
  }

  /** In all runs a packet that is due can be sealed if and only if the MTU is one
      that a record's length field can express: a larger one is not cut down, and
      a large message then fails. */
  lemma MtuExact(mtu: nat)
    ensures (forall es: seq<Event> :: SealsWhenDue(es, mtu)) <==> LengthFits(mtu)
  {
    hide Run, SealPacket, LengthFits;
    if LengthFits(mtu) {
      forall es: seq<Event> ensures SealsWhenDue(es, mtu) {
        if Run(Start(), es).Some? && Due(Run(Start(), es).value, mtu) {
          SealsInRun(es, mtu);
        }
      }
    } else {
      LargeRunFails(mtu);
    }
  }

  lemma SealsInRun(es: seq<Event>, mtu: nat)
    requires LengthFits(mtu) && Run(Start(), es).Some? && Due(Run(Start(), es).value, mtu)
    ensures SealPacket(Run(Start(), es).value).1.Some?
  {
    StartOk();
    RunKeepsOk(Start(), es);
    hide Run, SealPacket, CanSeal, RoomFor, LengthFits;
    var w := Run(Start(), es).value;
    assert WriterOkAt(w);
    hide WriterOkAt, WriterOk;
    PacketSucceeds(w);
  }

  // ---------- The epoch ----------

  predicate NumbersApart(w: Writer) {
    forall i, j | 0 <= i < j < |w.sealed| :: w.sealed[i].number != w.sealed[j].number
  }

  /** Some record, n changes of the write keys, and another record. */
  function KeyChanges(n: nat): seq<Event> { seq(n, _ => WriteKeys(NullCipher())) }

  const ALERT_RECORD := OtherRecord(true, [2, 40], 100)

  lemma {:induction false} ChangesRun(w: Writer, n: nat)
    requires w.cur == NullCipher()
    ensures Run(w, KeyChanges(n)).Some?
    ensures var w' := Run(w, KeyChanges(n)).value;
            && w'.cur == NullCipher() && w'.gen == w.gen + n && w'.sealed == w.sealed
            && w'.nextSeq == if n == 0 then w.nextSeq else 0
    decreases n
  {
    if n > 0 {
      assert KeyChanges(n)[0] == WriteKeys(NullCipher()) && KeyChanges(n)[1..] == KeyChanges(n - 1);
      ChangesRun(NewWriteKeys(w, NullCipher()), n - 1);
    }
  }

  lemma {:induction false} RunJoin(w: Writer, a: seq<Event>, b: seq<Event>)
    requires Run(w, a).Some?
    ensures Run(w, a + b) == Run(Run(w, a).value, b)
    decreases |a|
  {
    hide Step;
    if a == [] {
      assert a + b == b;
    } else {
      assert (a + b)[0] == a[0] && (a + b)[1..] == a[1..] + b;
      RunJoin(Step(w, a[0]).value, a[1..], b);
    }
  }

  lemma AlertRun(w: Writer)
    requires w.cur == NullCipher() && w.nextSeq == 0
    ensures Run(w, [ALERT_RECORD]).Some?
    ensures var w' := Run(w, [ALERT_RECORD]).value;
            && w'.cur == w.cur && w'.gen == w.gen
            && w'.sealed == w.sealed + [Record(ALERT, Number(Epoch(w.gen), 0), Sealed(w.gen, [2, 40]))]
  {
    assert [ALERT_RECORD][1..] == [];
  }

  /** After 65536 key changes the epoch is zero again, and so is the number. */
  lemma EpochWraps() returns (es: seq<Event>)
    ensures Run(Start(), es).Some?
    ensures Run(Start(), es).value.gen == EPOCHS && !NumbersApart(Run(Start(), es).value)
  {
    es := [ALERT_RECORD] + KeyChanges(EPOCHS) + [ALERT_RECORD];
    AlertRun(Start());
    var w1 := Run(Start(), [ALERT_RECORD]).value;
    ChangesRun(w1, EPOCHS);
    var w2 := Run(w1, KeyChanges(EPOCHS)).value;
    AlertRun(w2);
    var w3 := Run(w2, [ALERT_RECORD]).value;
    hide Run, KeyChanges;
    RunJoin(Start(), [ALERT_RECORD], KeyChanges(EPOCHS));
    RunJoin(Start(), [ALERT_RECORD] + KeyChanges(EPOCHS), [ALERT_RECORD]);
    assert w3.sealed[0].number == w3.sealed[1].number;
  }

  /** In all runs with at most this many changes of the write keys no two records
      share epoch and sequence number, if and only if these are fewer than 65536. */
  lemma EpochsExact(most: nat)
    ensures (forall es: seq<Event> | Run(Start(), es).Some? && Run(Start(), es).value.gen <= most ::
               NumbersApart(Run(Start(), es).value))
            <==> most < EPOCHS
  {
    hide Run;
    if most < EPOCHS {
      forall es: seq<Event> | Run(Start(), es).Some? && Run(Start(), es).value.gen <= most
        ensures NumbersApart(Run(Start(), es).value)
      {
        var w := Run(Start(), es).value;
        forall i, j | 0 <= i < j < |w.sealed| ensures w.sealed[i].number != w.sealed[j].number {
          NoWireNumberReuse(es, i, j);
        }
      }
    } else {
      var es := EpochWraps();
      assert !NumbersApart(Run(Start(), es).value);
    }
  }

  // ---------- The counter ----------

  /** The call may be made, and the record fits its length field and the room. */
  predicate Sealable(w: Writer, plain: bytes, usePrev: bool, room: nat) {
    var clen := CiphertextLen(if usePrev then w.prev else w.cur, |plain|);
    (usePrev ==> w.gen >= 1) && clen < 0xffff && RT_HEADER + clen <= room
  }

  /** A record that fits fails to seal exactly at the last number of its keys, which
      is never used.  The counter is then back at zero: whatever is sealed next
      takes the first number of the epoch again. */
  lemma CounterExact(w: Writer, typ: byte, plain: bytes, usePrev: bool, room: nat, again: bytes)
    requires NumbersOk(w) && Sealable(w, plain, usePrev, room) && Sealable(w, again, usePrev, room)
    ensures var (w', r) := SealRecord(w, typ, plain, usePrev, room);
            var s := if usePrev then w.lastSeq else w.nextSeq;
            var g := if usePrev then w.gen - 1 else w.gen;
            && (r.None? <==> s == SEQ48 - 1)
            && (r.Some? ==> r.value.number == Number(Epoch(g), s))
            && (r.None? ==> SealRecord(w', typ, again, usePrev, room).1 == Some(Record(typ, Number(Epoch(g), 0), Sealed(g, again))))
  {
    hide CiphertextLen;
    assert w.nextSeq < SEQ48 && w.lastSeq < SEQ48;
    hide NumbersOk;
  }
}
