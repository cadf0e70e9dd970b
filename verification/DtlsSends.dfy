/** What a DTLS sender does exactly: which MTU it goes by, what it takes into a
    flight, what one record and one packet hold, and when it cannot go on. */
module DtlsSends {
  import opened Bytes
  import opened Reassembly
  import opened DtlsWire
  import opened DtlsWriter
  import opened DtlsFlight

  // ---------- The MTU ----------

  /** An MTU the transport may name: 256 bytes less the 28 of IP and UDP headers up
      to 2^30. */
  predicate Nameable(answer: int) { 228 <= answer <= 0x4000_0000 }

  /** An MTU of 228 bytes or more is kept.  A smaller one is replaced by what the
      transport names, or by 1472, unless the transport must not be asked. */
  lemma MtuChosen(mtu: nat, noQuery: bool, answer: int)
    ensures var m := UpdateMtu(mtu, noQuery, answer);
            && (mtu >= 228 || noQuery ==> m == mtu)
            && (mtu < 228 && !noQuery ==> m == (if Nameable(answer) then answer else 1472))
            && (!noQuery ==> m >= 228)
  {}

  /** The first two timeouts leave the MTU alone; a later one takes a new one if the
      transport may be asked and names one. */
  lemma MtuAfterTimeout(mtu: nat, timeouts: nat, noQuery: bool, answer: int)
    ensures var m := FallbackMtu(mtu, timeouts, noQuery, answer);
            && (m == mtu || m == answer)
            && (timeouts <= 2 || noQuery || !Nameable(answer) ==> m == mtu)
            && (timeouts >= 3 && !noQuery && Nameable(answer) ==> m == answer)
            && (mtu >= 228 ==> m >= 228)
  {}

  // ---------- Queueing ----------

  /** A message goes to the end of the flight, filed under the current epoch; the
      first after a finished flight begins a new one.  It is refused, and then only
      the old flight is gone, if seven are there or its length takes more than 32
      bits.  A ChangeCipherSpec takes no message number and is not part of the
      transcript. */
  lemma AddExact(w: Writer, isCcs: bool, data: bytes)
    ensures var (w', ok) := AddOutgoing(w, isCcs, data);
            var old' := if w.complete then [] else w.flight;
            && (ok <==> |old'| < 7 && |data| <= 0xffff_ffff)
            && w'.flight == (if ok then old' + [OutMsg(data, w.gen % 0x1_0000, isCcs)] else old')
            && w'.writeSeq == (if ok && !isCcs then (w.writeSeq + 1) % 0x1_0000 else w.writeSeq)
            && w'.transcript == (if ok && !isCcs then w.transcript + [data] else w.transcript)
            && (w.complete ==> w'.written == 0 && w'.offset == 0 && !w'.complete && !w'.hasReply && w'.log == [])
            && w' == w.(flight := w'.flight, writeSeq := w'.writeSeq, transcript := w'.transcript, written := w'.written,
                        offset := w'.offset, complete := w'.complete, hasReply := w'.hasReply, log := w'.log)
            && (!w.complete ==> w' == w.(flight := w'.flight, writeSeq := w'.writeSeq, transcript := w'.transcript))
  {}

  /** A flight is given up when the handshake is complete and a message of the peer
      has come since the flight was, and at no other end of a handshake. */
  lemma RepliesExact(w: Writer)
    ensures Step(w, ReplySeen) == Some(w.(hasReply := w.hasReply || w.complete))
    ensures match Step(w, HandshakeComplete)
            case None => false
            case Some(w') => if w.hasReply then w'.flight == [] && !w'.complete && !w'.hasReply else w' == w
    ensures match Step(w, Retransmit)
            case None => false
            case Some(w') => w' == w.(written := 0, offset := 0, log := [])
  {}

  /** In every run the mark of a reply is there only on a flight that is finished. */
  lemma {:induction false} RepliesAfterFlights(w: Writer, es: seq<Event>)
    requires Run(w, es).Some? && (w.hasReply ==> w.complete)
    ensures var w' := Run(w, es).value; w'.hasReply ==> w'.complete
    decreases |es|
  {
    if es != [] {
      StepReplies(w, es[0]);
      RepliesAfterFlights(Step(w, es[0]).value, es[1..]);
    }
  }

  lemma StepReplies(w: Writer, e: Event)
    requires Step(w, e).Some? && (w.hasReply ==> w.complete)
    ensures var w' := Step(w, e).value; w'.hasReply ==> w'.complete
  {
    hide SealMore, Message;
    if e.Packet? { SealMoreKeeps(w, w.mtu, []); }
  }

  predicate SameFlags(w: Writer, w': Writer) {
    w'.complete == w.complete && w'.hasReply == w.hasReply && w'.flight == w.flight
  }

  lemma {:induction false} SealMoreKeeps(w: Writer, maxOut: nat, recs: seq<Record>)
    ensures SameFlags(w, SealMore(w, maxOut, recs).0)
    decreases |w.flight| - w.written
  {
    hide SealNext;
    if w.written < |w.flight| {
      SealNextKeeps(w, maxOut);
      match SealNext(w, maxOut) {
        case (w', SealSuccess(rec, len)) =>
          SealMoreKeeps(w'.(written := w.written + 1), if len <= maxOut then maxOut - len else 0, recs + [rec]);
        case (w', r) =>
      }
    }
  }

  lemma SealNextKeeps(w: Writer, maxOut: nat)
    requires w.written < |w.flight|
    ensures SameFlags(w, SealNext(w, maxOut).0)
  {
    hide Parsed, CiphertextLen, SealRecord, Piece;
    forall typ: byte, plain: bytes, usePrev
      ensures var w' := SealRecord(w, typ, plain, usePrev, maxOut).0;
              w'.complete == w.complete && w'.hasReply == w.hasReply && w'.flight == w.flight
    {
      RecordKeeps(w, typ, plain, usePrev, maxOut);
    }
  }

  lemma RecordKeeps(w: Writer, typ: byte, plain: bytes, usePrev: bool, room: nat)
    ensures var w' := SealRecord(w, typ, plain, usePrev, room).0;
            w' == w.(nextSeq := w'.nextSeq, lastSeq := w'.lastSeq, sealed := w'.sealed)
  {}

  // ---------- Lengths ----------

  /** An AEAD adds its tag; a block cipher its MAC and what fills the block that
      follows it, a byte at least. */
  lemma TagExact(c: Cipher, n: nat)
    ensures CiphertextLen(c, n) == c.nonceLen + n + TagLen(c, n)
    ensures c.block == 0 ==> TagLen(c, n) == c.mac
    ensures c.block > 0 ==>
              && n + TagLen(c, n) == c.block * ((n + c.mac) / c.block + 1)
              && c.mac + 1 <= TagLen(c, n) <= c.mac + c.block
  {
    if c.block > 0 { WholeBlocks(n + c.mac, c.block); }
  }

  lemma WholeBlocks(n: nat, block: nat)
    requires block > 0
    ensures n + (block - n % block) == block * (n / block + 1) && 1 <= block - n % block <= block
  {
    var q := n / block;
    assert n == block * q + n % block;
    assert block * (q + 1) == block * q + block;
  }

  /** The most it can add is what is reckoned with: 13 bytes of record header, the
      nonce, the MAC or tag, a block. */
  lemma OverheadIs(c: Cipher, n: nat)
    ensures Overhead(c) == 13 + c.nonceLen + c.mac + c.block && 13 + CiphertextLen(c, n) <= n + Overhead(c)
  {}

  // ---------- One record ----------

  /** The keys of the current epoch, or of the one before. */
  function KeysOf(w: Writer, usePrev: bool): Cipher { if usePrev then w.prev else w.cur }

  function CounterOf(w: Writer, usePrev: bool): nat { if usePrev then w.lastSeq else w.nextSeq }

  function GenOf(w: Writer, usePrev: bool): int { if usePrev then w.gen - 1 else w.gen }

  /** The record fits its room and its length field, and its keys have a number
      left. */
  predicate Sealable(w: Writer, n: nat, usePrev: bool, room: nat) {
    && GenOf(w, usePrev) >= 0 && 13 + CiphertextLen(KeysOf(w, usePrev), n) <= room
    && CiphertextLen(KeysOf(w, usePrev), n) < 0xffff
    && (CounterOf(w, usePrev) + 1) % 0x1_0000_0000_0000 != 0
  }

  /** A record is sealed exactly when it can be: under the generation's own epoch
      and the next of its numbers, of which one is used up. */
  lemma SealExact(w: Writer, typ: byte, plain: bytes, usePrev: bool, room: nat)
    ensures var (w', r) := SealRecord(w, typ, plain, usePrev, room);
            var (g, s) := (GenOf(w, usePrev), CounterOf(w, usePrev));
            && (r.Some? <==> Sealable(w, |plain|, usePrev, room))
            && (r.Some? ==>
                  && r.value == Record(typ, (g % 0x1_0000) * 0x1_0000_0000_0000 + s, Sealed(g, plain))
                  && w'.sealed == w.sealed + [r.value]
                  && CounterOf(w', usePrev) == (s + 1) % 0x1_0000_0000_0000 && CounterOf(w', !usePrev) == CounterOf(w, !usePrev))
  {}

  // ---------- One message ----------

  /** Messages are sealed under the current epoch or the one before, and under no
      other. */
  lemma KeysExact(w: Writer, epoch: nat)
    requires epoch < 0x1_0000
    ensures KeysFor(w, epoch) == 0 <==> epoch == w.gen % 0x1_0000
    ensures KeysFor(w, epoch) == 1 <==> epoch + 1 == w.gen % 0x1_0000
    ensures KeysFor(w, epoch) <= 2
  {}

  /** The next message can be sealed under some keys. */
  predicate Keyed(w: Writer)
    requires w.written < |w.flight|
  {
    KeysFor(w, w.flight[w.written].epoch) <= 1
  }

  /** The least room the next message needs: a record of one byte, for a fragment
      with its twelve bytes of header. */
  function Needs(w: Writer): nat
    requires w.written < |w.flight|
  {
    var msg := w.flight[w.written];
    1 + Overhead(KeysOf(w, KeysFor(w, msg.epoch) == 1)) + if msg.isCcs then 0 else 12
  }

  /** How many bytes of the next message are left. */
  function LeftOf(w: Writer): nat
    requires WriterOkAt(w) && w.written < |w.flight|
  {
    var msg := w.flight[w.written];
    assert MsgOk(w, msg);
    if msg.isCcs then 0 else |BodyOf(msg.data)| - w.offset
  }

  /** Without room for a byte nothing happens.  Otherwise a fragment takes what is
      left of the message, or as much as there is room for. */
  lemma NextExact(w: Writer, room: nat)
    requires WriterOkAt(w) && w.written < |w.flight| && Keyed(w)
    ensures var (w', r) := SealNext(w, room);
            && (room < Needs(w) ==> (w', r) == (w, NoProgress))
            && (room >= Needs(w) ==> r != NoProgress)
            && (r.SealPartial? ==> LeftOf(w) > 1 + room - Needs(w) && w'.offset == w.offset + 1 + room - Needs(w))
            && (r.SealSuccess? ==> w'.offset == 0 && LeftOf(w) <= 1 + room - Needs(w))
  {
    var msg := w.flight[w.written];
    assert MsgOk(w, msg);
    if !msg.isCcs { ParsedAt(msg.data, w.offset); }
    hide SealRecord, Piece, NumbersOk, CiphertextLen;
    forall typ: byte, plain: bytes, usePrev ensures SealRecord(w, typ, plain, usePrev, room).0.offset == w.offset {
      RecordKeeps(w, typ, plain, usePrev, room);
    }
  }

  // ---------- One packet ----------

  /** A packet that does not finish the flight is full: what is left of its room
      does not take a byte more. */
  predicate Full(w: Writer, left: int) {
    w.written < |w.flight| && Keyed(w) ==> left < Needs(w)
  }

  predicate Filled(w: Writer, w': Writer, recs: seq<Record>, room: nat) { Full(w', room - TotalLen(w, recs)) }

  lemma {:induction false} MoreIsFull(w: Writer, room: nat, recs: seq<Record>)
    requires WriterOkAt(w) && SealMore(w, room, recs).1.Some?
    ensures var (w', r) := SealMore(w, room, recs); recs <= r.value && Filled(w, w', r.value[|recs|..], room)
    decreases |w.flight| - w.written
  {
    hide SealNext, WriterOkAt, Keyed, RecordLen, Filled;
    if w.written >= |w.flight| {
      NothingLeft(w, room);
      assert recs[|recs|..] == [];
    } else {
      match SealNext(w, room) {
        case (w1, SealError) =>
        case (w1, NoProgress) =>
          NoRoom(w, room);
          assert recs[|recs|..] == [];
        case (w1, SealPartial(rec, len)) =>
          PartialFilled(w, room);
          assert (recs + [rec])[|recs|..] == [rec];
        case (w1, SealSuccess(rec, len)) =>
          var w2 := w1.(written := w.written + 1);
          SuccessOk(w, room);
          MoreIsFull(w2, room - len, recs + [rec]);
          var (w', r) := SealMore(w2, room - len, recs + [rec]);
          var more := r.value[|recs| + 1..];
          FilledCons(w, w2, w', rec, more, room);
          assert r.value[|recs|..] == [rec] + more;
      }
    }
  }

  lemma NothingLeft(w: Writer, room: nat)
    requires w.written >= |w.flight|
    ensures Filled(w, w, [], room)
  {}

  lemma NoRoom(w: Writer, room: nat)
    requires WriterOkAt(w) && w.written < |w.flight| && SealNext(w, room).1.NoProgress?
    ensures SealNext(w, room).0 == w && Filled(w, w, [], room)
  {
    if Keyed(w) { NextExact(w, room); } else { NotKeyed(w, room); }
    hide SealNext, WriterOkAt, Keyed, Needs;
  }

  lemma PartialFilled(w: Writer, room: nat)
    requires WriterOkAt(w) && w.written < |w.flight| && SealNext(w, room).1.SealPartial?
    ensures var (w1, r) := SealNext(w, room); Filled(w, w1, [r.rec], room)
  {
    PartialFills(w, room);
    OneLen(w, SealNext(w, room).1.rec);
    hide SealNext, WriterOkAt, Full, TotalLen, RecordLen;
  }

  lemma FilledCons(w: Writer, w2: Writer, w': Writer, rec: Record, more: seq<Record>, room: nat)
    requires w.gen == w2.gen && w.cur == w2.cur && w.prev == w2.prev && RecordLen(w, rec) <= room
    requires Filled(w2, w', more, room - RecordLen(w, rec))
    ensures Filled(w, w', [rec] + more, room)
  {
    TotalLenCons(w, w2, rec, more);
    hide TotalLen, RecordLen, Full;
  }

  lemma NotKeyed(w: Writer, room: nat)
    requires w.written < |w.flight| && !Keyed(w)
    ensures SealNext(w, room) == (w, SealError)
  {
    hide Parsed;
  }

  lemma OneLen(w: Writer, rec: Record)
    ensures TotalLen(w, [rec]) == RecordLen(w, rec)
  {
    hide RecordLen;
    assert TotalLen(w, [rec]) == RecordLen(w, rec) + TotalLen(w, [rec][1..]);
  }

  /** A fragment that is not the last of its message fills its room but for what is
      less than a record. */
  lemma PartialFills(w: Writer, room: nat)
    requires WriterOkAt(w) && w.written < |w.flight| && SealNext(w, room).1.SealPartial?
    ensures var (w1, r) := SealNext(w, room); w1.written < |w1.flight| && Full(w1, room - RecordLen(w, r.rec))
  {
    SealNextSpec(w, room);
    var msg := w.flight[w.written];
    assert MsgOk(w, msg);
    hide NumbersOk, Follows, Piece, SealRecord;
    var (c, usePrev) := (KeysOf(w, KeysFor(w, msg.epoch) == 1), KeysFor(w, msg.epoch) == 1);
    var n := room - Overhead(c);
    TagExact(c, n);
    hide TagLen, CiphertextLen, Parsed, BodyOf;
  }

  lemma SuccessOk(w: Writer, room: nat)
    requires WriterOkAt(w) && w.written < |w.flight| && SealNext(w, room).1.SealSuccess?
    ensures var (w1, r) := SealNext(w, room);
            && r.len == RecordLen(w, r.rec) <= room && w1.flight == w.flight && w1.written == w.written
            && WriterOkAt(w1.(written := w.written + 1))
            && w1.gen == w.gen && w1.cur == w.cur && w1.prev == w.prev
  {
    SealNextSpec(w, room);
    var (w1, r) := SealNext(w, room);
    hide SealNext, NumbersOk, Follows, Parsed, RecordLen;
    NumbersFrame(w1, w1.(written := w.written + 1));
  }

  lemma PacketIsFull(w: Writer)
    requires WriterOkAt(w) && SealPacket(w).1.Some?
    ensures var (w', r) := SealPacket(w); Full(w', w.mtu - TotalLen(w, r.value))
  {
    hide WriterOkAt, SealMore, Full, TotalLen;
    MoreIsFull(w, w.mtu, []);
    assert SealPacket(w) == SealMore(w, w.mtu, []);
    var recs := SealPacket(w).1.value;
    assert recs[0..] == recs;
  }

  // ---------- A whole flight ----------

  predicate AllPositive(answer: nat -> int, lo: nat, hi: nat) {
    forall k: nat | lo <= k < hi :: answer(k) > 0
  }

  /** How the loop ends: done, if the transport took every packet; turned away by the
      transport, with the answer it gave; or failed, with a packet that could not be
      sealed. */
  predicate LoopEnds(answer: nat -> int, n: nat, m: nat, out: Outcome) {
    && n <= m
    && match out
       case Done => AllPositive(answer, n, m)
       case Blocked(code) => n < m && AllPositive(answer, n, m - 1) && code == answer(m - 1) <= 0
       case Failed => AllPositive(answer, n, m)
       case Shut => false
  }

  lemma {:induction false} LoopExact(w: Writer, answer: nat -> int, n: nat)
    requires WriterOkAt(w)
    ensures var (w', packets, m, out) := SendLoop(w, answer, n);
            && LoopEnds(answer, n, m, out)
            && (out.Done? ==> m == n + |packets|) && (out.Blocked? ==> m == n + |packets| + 1)
    decreases |w.flight| - w.written, BytesLeft(w)
  {
    hide SendPacket, WriterOkAt, BytesLeft;
    if w.written < |w.flight| {
      match SendPacket(w, answer(n) > 0) {
        case (w1, None) =>
        case (w1, Some(recs)) =>
          if answer(n) > 0 {
            RoundOk(w, true);
            PacketProgress(w);
            LoopExact(w1, answer, n + 1);
          }
      }
    }
  }

  /** How a flush ends. */
  predicate FlushEnds(answer: nat -> int, n: nat, m: nat, out: Outcome) {
    match out
    case Done => n < m && AllPositive(answer, n, m)
    case Blocked(code) => n < m && AllPositive(answer, n, m - 1) && answer(m - 1) <= 0 && (code == answer(m - 1) || code == -1)
    case Failed => n <= m && AllPositive(answer, n, m)
    case Shut => n == m
  }

  /** A flush does nothing if and only if writing is shut down.  Otherwise it ends as
      the loop does, and is done only when the transport's own flush is, too. */
  lemma SendExact(w: Writer, closed: bool, mtu: nat, answer: nat -> int, n: nat)
    requires WriterOkAt(w) && WriterOkAt(w.(mtu := mtu))
    ensures var (w', packets, m, out) := SendFlight(w, closed, mtu, answer, n);
            && FlushEnds(answer, n, m, out) && (out.Shut? <==> closed) && (closed ==> w' == w && packets == [])
  {
    hide SendLoop, WriterOkAt;
    if !closed {
      LoopExact(w.(mtu := mtu), answer, n);
      match SendLoop(w.(mtu := mtu), answer, n) {
        case (w', packets, m, Done) => OneFurther(answer, n, m);
        case r =>
      }
    }
  }

  lemma OneFurther(answer: nat -> int, n: nat, m: nat)
    requires n <= m && AllPositive(answer, n, m)
    ensures FlushEnds(answer, n, m + 1, if answer(m) <= 0 then Blocked(-1) else Done)
  {}

  // Why nothing fails: each record takes a byte or finishes a message, so there
  // are never more records than bytes and messages left.

  /** The bytes and messages of a flight from the i-th on. */
  function Work(flight: seq<OutMsg>, i: nat): nat
    decreases |flight| - i
  {
    if i >= |flight| then 0 else |flight[i].data| + 1 + Work(flight, i + 1)
  }

  /** Those that are left. */
  function WorkLeft(w: Writer): int { Work(w.flight, w.written) - w.offset }

  /** Room in a packet, keys for every message, and numbers for every record there
      can be. */
  predicate Provided(w: Writer) {
    && RoomFor(w, w.mtu) && LengthFits(w.mtu)
    && (forall i | w.written <= i < |w.flight| :: KeysFor(w, w.flight[i].epoch) != 2)
    && w.nextSeq + WorkLeft(w) < 0x1_0000_0000_0000 && w.lastSeq + WorkLeft(w) < 0x1_0000_0000_0000
  }

  lemma {:induction false} WorkEnough(flight: seq<OutMsg>, i: nat)
    requires i <= |flight|
    ensures Work(flight, i) >= |flight| - i
    decreases |flight| - i
  {
    if i < |flight| { WorkEnough(flight, i + 1); }
  }

  lemma BodyShorter(data: bytes)
    requires Parsed(data, 0).Some?
    ensures |BodyOf(data)| <= |data|
  {
    EncodeParseFragment(data);
  }

  /** The offset is within the message. */
  lemma WorkThere(w: Writer)
    requires WriterOkAt(w)
    ensures WorkLeft(w) >= |w.flight| - w.written
    ensures w.written < |w.flight| ==> w.offset <= |w.flight[w.written].data|
  {
    WorkEnough(w.flight, w.written);
    if w.written < |w.flight| {
      WorkEnough(w.flight, w.written + 1);
      assert MsgOk(w, w.flight[w.written]);
      if w.offset > 0 { BodyShorter(w.flight[w.written].data); }
    }
    hide Parsed, NumbersOk;
  }

  /** One record's numbers and work. */
  lemma RecordWork(w: Writer, room: nat)
    requires WriterOkAt(w) && w.written < |w.flight|
    ensures var (w1, r) := SealNext(w, room);
            && (r.SealPartial? ==> Spent(w, w1))
            && (r.SealSuccess? ==> Spent(w, w1.(written := w.written + 1)))
  {
    SealNextFlight(w, room);
    NumbersUsed(w, room);
    WorkThere(w);
    hide SealNext, WriterOkAt, Spent;
    var (w1, r) := SealNext(w, room);
    if r.SealPartial? {
      PartialForward(w, room);
      SpentInside(w, w1);
    } else if r.SealSuccess? {
      StartsAnew(w, room);
      SpentWhole(w, w1.(written := w.written + 1));
    }
  }

  lemma SpentInside(w: Writer, w': Writer)
    requires w'.flight == w.flight && w'.written == w.written && w'.offset > w.offset
    requires w'.nextSeq <= w.nextSeq + 1 && w'.lastSeq <= w.lastSeq + 1
    ensures Spent(w, w')
  {
    hide Work;
  }

  lemma SpentWhole(w: Writer, w': Writer)
    requires w.written < |w.flight| && w'.flight == w.flight && w'.written == w.written + 1 && w'.offset == 0
    requires w.offset <= |w.flight[w.written].data|
    requires w'.nextSeq <= w.nextSeq + 1 && w'.lastSeq <= w.lastSeq + 1
    ensures Spent(w, w')
  {
    WorkIs(w.flight, w.written);
    hide Work;
  }

  lemma StartsAnew(w: Writer, room: nat)
    requires WriterOkAt(w) && w.written < |w.flight| && SealNext(w, room).1.SealSuccess?
    ensures SealNext(w, room).0.offset == 0
  {
    if Keyed(w) { NextExact(w, room); } else { NotKeyed(w, room); }
    hide SealNext;
  }

  lemma WorkIs(flight: seq<OutMsg>, i: nat)
    requires i < |flight|
    ensures Work(flight, i) == |flight[i].data| + 1 + Work(flight, i + 1)
  {}

  lemma PartialForward(w: Writer, room: nat)
    requires WriterOkAt(w) && w.written < |w.flight| && SealNext(w, room).1.SealPartial?
    ensures SealNext(w, room).0.offset > w.offset
  {
    if Keyed(w) { NextExact(w, room); } else { NotKeyed(w, room); }
    hide SealNext;
  }

  /** Of each counter at most one number. */
  lemma NumbersUsed(w: Writer, room: nat)
    requires w.written < |w.flight|
    ensures var (w1, r) := SealNext(w, room);
            r.SealPartial? || r.SealSuccess? ==> w1.nextSeq <= w.nextSeq + 1 && w1.lastSeq <= w.lastSeq + 1
  {
    hide Parsed, CiphertextLen, SealRecord, Piece;
    forall typ: byte, plain: bytes, usePrev
      ensures var w1 := SealRecord(w, typ, plain, usePrev, room).0; w1.nextSeq <= w.nextSeq + 1 && w1.lastSeq <= w.lastSeq + 1
    {
      OneNumber(w, typ, plain, usePrev, room);
    }
  }

  lemma OneNumber(w: Writer, typ: byte, plain: bytes, usePrev: bool, room: nat)
    ensures var w1 := SealRecord(w, typ, plain, usePrev, room).0; w1.nextSeq <= w.nextSeq + 1 && w1.lastSeq <= w.lastSeq + 1
  {
    Smaller(w.nextSeq + 1);
    Smaller(w.lastSeq + 1);
  }

  lemma Smaller(n: nat)
    ensures n % SEQ48 <= n
  {}

  /** No more numbers were used than work was done. */
  predicate Spent(w: Writer, w': Writer) {
    && w'.nextSeq + WorkLeft(w') <= w.nextSeq + WorkLeft(w)
    && w'.lastSeq + WorkLeft(w') <= w.lastSeq + WorkLeft(w)
  }

  lemma {:induction false} PacketSpent(w: Writer, room: nat, recs: seq<Record>)
    requires WriterOkAt(w) && SealMore(w, room, recs).1.Some?
    ensures Spent(w, SealMore(w, room, recs).0)
    decreases |w.flight| - w.written
  {
    hide SealNext, WriterOkAt, WorkLeft;
    if w.written < |w.flight| {
      RecordWork(w, room);
      match SealNext(w, room) {
        case (w1, SealError) =>
        case (w1, NoProgress) => NoRoom(w, room);
        case (w1, SealPartial(rec, len)) =>
        case (w1, SealSuccess(rec, len)) =>
          SuccessOk(w, room);
          PacketSpent(w1.(written := w.written + 1), room - len, recs + [rec]);
      }
    }
  }

  /** What stays the same over a packet, and that there is still enough. */
  lemma ProvidedOn(w: Writer)
    requires WriterOkAt(w) && w.written < |w.flight| && Provided(w)
    ensures SealPacket(w).1.Some?
    ensures var w' := SendPacket(w, true).0; WriterOkAt(w') && Provided(w')
  {
    WorkThere(w);
    ProvidedSeals(w);
    PacketSpec(w);
    PacketSpent(w, w.mtu, []);
    RoundOk(w, true);
    hide SealMore, WriterOkAt, NumbersOk, Tile, TotalLen, RoomFor, LengthFits, SealPacket;
    var (w1, r) := SealPacket(w);
    assert OnlySealed(w, w1) && w1.written >= w.written by { PacketForward(w); }
    assert SealPacket(w) == SealMore(w, w.mtu, []) by { PacketIs(w); }
    SameRoom(w, w1, SendPacket(w, true).0);
  }

  lemma PacketIs(w: Writer)
    ensures SealPacket(w) == SealMore(w, w.mtu, [])
  {}

  lemma ProvidedSeals(w: Writer)
    requires WriterOkAt(w) && w.written < |w.flight| && Provided(w)
    ensures SealPacket(w).1.Some?
  {
    WorkThere(w);
    hide WriterOkAt, SealPacket, RoomFor, LengthFits, WorkLeft;
    PacketSucceeds(w);
  }

  lemma PacketForward(w: Writer)
    requires WriterOkAt(w) && w.written < |w.flight| && SealPacket(w).1.Some?
    ensures OnlySealed(w, SealPacket(w).0) && SealPacket(w).0.written >= w.written
  {
    PacketSpec(w);
    var (w1, r) := SealPacket(w);
    hide SealPacket, WriterOkAt, TotalLen;
    TileAdvances(w.flight, w.written, w.offset, r.value);
  }

  lemma SameRoom(w: Writer, w1: Writer, w': Writer)
    requires Provided(w) && OnlySealed(w, w1) && w1.written >= w.written && Spent(w, w1) && w' == w1.(log := w'.log)
    ensures Provided(w')
  {
    hide WorkLeft, Work;
    assert WorkLeft(w') == WorkLeft(w1) by { SameWork(w', w1); }
  }

  lemma SameWork(w: Writer, w': Writer)
    requires w.flight == w'.flight && w.written == w'.written && w.offset == w'.offset
    ensures WorkLeft(w) == WorkLeft(w')
  {}

  lemma {:induction false} LoopSucceeds(w: Writer, answer: nat -> int, n: nat)
    requires WriterOkAt(w) && Provided(w) && forall k: nat :: answer(k) > 0
    ensures SendLoop(w, answer, n).3.Done?
    decreases |w.flight| - w.written, BytesLeft(w)
  {
    hide WriterOkAt, BytesLeft, Provided, SealPacket;
    if w.written < |w.flight| {
      ProvidedOn(w);
      RoundOk(w, true);
      PacketProgress(w);
      LoopSucceeds(SendPacket(w, true).0, answer, n + 1);
    }
  }

  /** With room, keys and numbers, and a transport that takes what it is given, one
      flush sends the whole flight. */
  lemma FlushSucceeds(w: Writer, mtu: nat, answer: nat -> int, n: nat)
    requires WriterOkAt(w) && WriterOkAt(w.(mtu := mtu)) && Provided(w.(mtu := mtu)) && forall k: nat :: answer(k) > 0
    ensures var (w', packets, m, out) := SendFlight(w, false, mtu, answer, n); out == Done && w'.written == |w'.flight|
  {
    hide WriterOkAt, Provided;
    LoopSucceeds(w.(mtu := mtu), answer, n);
    SentWhole(w, false, mtu, answer, n);
    hide SendLoop;
  }
}
