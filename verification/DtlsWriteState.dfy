/** The sending half of DTLS1_STATE, updated in place. */
module DtlsWriteState {
  import opened Bytes
  import opened Reassembly
  import opened DtlsWire
  import opened DtlsWriter
  import opened DtlsFlight

  /** A datagram transport: its n-th answer to a write, and what it accepted. */
  class Transport {
    const answer: nat -> int
    var calls: nat
    var accepted: seq<seq<Record>>

    constructor (answer: nat -> int)
      ensures this.answer == answer && calls == 0 && accepted == []
    {
      this.answer, calls, accepted := answer, 0, [];
    }

    method Write(packet: seq<Record>) returns (r: int)
      modifies this
      ensures r == answer(old(calls)) && calls == old(calls) + 1
      ensures accepted == old(accepted) + if r > 0 then [packet] else []
    {
      r := answer(calls);
      calls := calls + 1;
      if r > 0 { accepted := accepted + [packet]; }
    }

    /** BIO_flush. */
    method Flush() returns (r: int)
      modifies this`calls
      ensures r == answer(old(calls)) && calls == old(calls) + 1
    {
      r := answer(calls);
      calls := calls + 1;
    }
  }

  class WriteState {
    const messages: array<OutMsg>
    var messagesLen: nat
    var written: nat
    var offset: nat
    var complete: bool
    var hasReply: bool
    var writeSeq: nat
    var wEpoch: nat
    /** Stands for aead_write_ctx: which generation of keys it holds. */
    var gen: nat
    var nextSeq: nat
    var lastSeq: nat
    var cur: Cipher
    var prev: Cipher
    var mtu: nat
    ghost var transcript: seq<bytes>
    ghost var sealed: seq<Record>
    ghost var log: seq<Record>

    ghost predicate Valid()
      reads this, messages
    {
      Shape() && WriterOkAt(View())
    }

    /** The fields represent View(), whatever state that is. */
    ghost predicate Shape()
      reads this
    {
      messages.Length == N && messagesLen <= N && wEpoch == Epoch(gen)
    }

    ghost function View(): Writer
      reads this, messages
      requires messagesLen <= messages.Length
    {
      Writer(messages[..messagesLen], written, offset, complete, hasReply, writeSeq,
             gen, nextSeq, lastSeq, cur, prev, mtu, transcript, sealed, log)
    }

    constructor ()
      ensures Valid() && View() == Start()
    {
      messages := new OutMsg[N](_ => OutMsg([], 0, false));
      messagesLen, written, offset, complete, hasReply := 0, 0, 0, false, false;
      writeSeq, wEpoch, gen, nextSeq, lastSeq := 0, 0, 0, 0, 0;
      cur, prev, mtu := NullCipher(), NullCipher(), 0;
      transcript, sealed, log := [], [], [];
      new;
      StartOk();
    }

    /** dtls_clear_outgoing_messages. */
    method ClearOutgoing()
      requires Shape()
      modifies this`messagesLen, this`written, this`offset, this`complete, this`hasReply, this`log
      ensures Shape() && View() == Clear(old(View()))
    {
      messagesLen, written, offset, complete, hasReply := 0, 0, 0, false, false;
      log := [];
    }

    /** add_outgoing.  A message that does not parse is queued all the same; it is
        sealing that fails for it. */
    method Add(isCcs: bool, data: bytes) returns (ok: bool)
      requires Shape()
      modifies this, messages
      ensures Shape() && (View(), ok) == AddOutgoing(old(View()), isCcs, data)
      ensures old(Valid()) && (!isCcs ==> Parsed(data, 0).Some?) ==> Valid()
    {
      hide WriterOkAt, Parsed;
      ghost var w := View();
      if complete {
        ClearOutgoing();
      }
      if messagesLen < N && |data| <= 0xffff_ffff {
        Push(isCcs, data);
        ok := true;
      } else {
        ok := false;
      }
      AddKeepsOkAt(w, isCcs, data);
    }

    method Push(isCcs: bool, data: bytes)
      requires Shape() && messagesLen < N
      modifies this`transcript, this`writeSeq, this`messagesLen, messages
      ensures Shape()
      ensures var w := old(View());
              var w2 := if isCcs then w
                        else w.(transcript := w.transcript + [data], writeSeq := (w.writeSeq + 1) % SEQ16);
              View() == w2.(flight := w.flight + [OutMsg(data, Epoch(w.gen), isCcs)])
    {
      ghost var w := View();
      if !isCcs {
        transcript := transcript + [data];
        writeSeq := (writeSeq + 1) % SEQ16;
      }
      messages[messagesLen] := OutMsg(data, wEpoch, isCcs);
      messagesLen := messagesLen + 1;
      assert View().flight == w.flight + [OutMsg(data, wEpoch, isCcs)];
    }

    /** dtls_seal_record. */
    method Seal(typ: byte, plain: bytes, usePrev: bool, maxOut: nat) returns (rec: Option<Record>)
      requires Shape() && (usePrev ==> wEpoch >= 1)
      modifies this`nextSeq, this`lastSeq, this`sealed
      ensures (View(), rec) == SealRecord(old(View()), typ, plain, usePrev, maxOut)
    {
      var epoch, keys, c, s := wEpoch, gen, cur, nextSeq;
      if usePrev {
        epoch, keys, c, s := wEpoch - 1, gen - 1, prev, lastSeq;
        PrevEpoch(gen);
      }
      if maxOut < RT_HEADER {
        return None;
      }
      var clen := CiphertextLen(c, |plain|);
      if clen >= 0xffff || clen > maxOut - RT_HEADER {
        return None;
      }
      var r := Record(typ, Number(epoch, s), Sealed(keys, plain));
      s := (s + 1) % SEQ48;
      if usePrev { lastSeq := s; } else { nextSeq := s; }
      if s == 0 {
        return None;
      }
      sealed := sealed + [r];
      return Some(r);
    }

    /** The ChangeCipherSpec branch of seal_next_message. */
    method SealCcs(usePrev: bool, maxOut: nat) returns (r: SealResult)
      requires Shape() && written < messagesLen && messages[written].isCcs
      requires KeysFor(View(), messages[written].epoch) == if usePrev then 1 else 0
      modifies this`nextSeq, this`lastSeq, this`sealed
      ensures (View(), r) == SealNext(old(View()), maxOut)
    {
      hide SealRecord, Parsed, CiphertextLen;
      var c := if usePrev then prev else cur;
      if maxOut < 1 + Overhead(c) {
        return NoProgress;
      }
      var rec := Seal(CHANGE_CIPHER_SPEC, [CCS_BYTE], usePrev, maxOut);
      return if rec.None? then SealError else SealSuccess(rec.value, RT_HEADER + CiphertextLen(c, 1));
    }

    /** The handshake message branch of seal_next_message. */
    method SealFragment(usePrev: bool, maxOut: nat) returns (r: SealResult)
      requires Shape() && written < messagesLen && !messages[written].isCcs
      requires KeysFor(View(), messages[written].epoch) == if usePrev then 1 else 0
      modifies this`nextSeq, this`lastSeq, this`sealed, this`offset
      ensures (View(), r) == SealNext(old(View()), maxOut)
    {
      hide SealRecord, ParseFragment, CiphertextLen, EncodeFragment;
      var msg := messages[written];
      var overhead := Overhead(if usePrev then prev else cur);
      var p := Parsed(msg.data, offset);
      if p.None? {
        return SealError;
      }
      hide Parsed;
      if maxOut < HM_HEADER_LENGTH + 1 + overhead {
        return NoProgress;
      }
      var (h, body) := p.value;
      var todo := |body| - offset;
      if todo > maxOut - HM_HEADER_LENGTH - overhead {
        todo := maxOut - HM_HEADER_LENGTH - overhead;
      }
      var rec := Seal(HANDSHAKE, Piece(h, body, offset, todo), usePrev, maxOut);
      if rec.None? {
        return SealError;
      }
      var len := RT_HEADER + CiphertextLen(if usePrev then prev else cur, HM_HEADER_LENGTH + todo);
      if todo == |body| - offset {
        offset := 0;
        return SealSuccess(rec.value, len);
      }
      offset := offset + todo;
      return SealPartial(rec.value, len);
    }

    /** seal_next_message. */
    method SealNextMessage(maxOut: nat) returns (r: SealResult)
      requires Shape() && written < messagesLen
      modifies this`nextSeq, this`lastSeq, this`sealed, this`offset
      ensures Shape() && (View(), r) == SealNext(old(View()), maxOut)
    {
      hide SealRecord, Parsed;
      var msg := messages[written];
      var usePrev := false;
      if wEpoch >= 1 && msg.epoch == wEpoch - 1 {
        usePrev := true;
      } else if msg.epoch != wEpoch {
        return SealError;
      }
      if msg.isCcs {
        r := SealCcs(usePrev, maxOut);
      } else {
        r := SealFragment(usePrev, maxOut);
      }
    }

    /** seal_next_packet. */
    method SealNextPacket(room: nat) returns (packet: Option<seq<Record>>)
      requires Shape()
      modifies this`nextSeq, this`lastSeq, this`sealed, this`offset, this`written
      ensures Shape() && (View(), packet) == SealMore(old(View()), room, [])
    {
      hide SealNext;
      var recs, maxOut := [], room;
      while written < messagesLen
        invariant Shape()
        invariant SealMore(View(), maxOut, recs) == SealMore(old(View()), room, [])
        invariant messages[..messagesLen] == old(messages[..messagesLen])
        decreases messagesLen - written
      {
        var r := SealNextMessage(maxOut);
        match r {
          case SealError =>
            return None;
          case NoProgress =>
            break;
          case SealPartial(rec, len) =>
            recs := recs + [rec];
            break;
          case SealSuccess(rec, len) =>
            recs, maxOut := recs + [rec], if len <= maxOut then maxOut - len else 0;
        }
        written := written + 1;
      }
      return if recs == [] then None else Some(recs);
    }

    /** One round of send_flight: a packet is sealed and offered, and the position
        goes back when the transport refuses it. */
    method SendRound(t: Transport) returns (end: Option<Outcome>)
      requires Valid() && written < messagesLen
      modifies this`nextSeq, this`lastSeq, this`sealed, this`offset, this`written, this`log, t
      ensures Shape()
      ensures var w := old(View());
              var r := t.answer(old(t.calls));
              var (w', packet) := SendPacket(w, r > 0);
              View() == w' &&
              if packet.None? then end == Some(Failed) && t.calls == old(t.calls) && t.accepted == old(t.accepted)
              else
                && t.calls == old(t.calls) + 1
                && end == (if r <= 0 then Some(Blocked(r)) else None)
                && t.accepted == old(t.accepted) + if r > 0 then [packet.value] else []
    {
      hide SealMore, WriterOkAt;
      var oldWritten, oldOffset := written, offset;
      var packet := SealNextPacket(mtu);
      if packet.None? {
        return Some(Failed);
      }
      var r := t.Write(packet.value);
      if r <= 0 {
        written, offset := oldWritten, oldOffset;
        return Some(Blocked(r));
      }
      log := log + packet.value;
      return None;
    }

    /** The loop of send_flight. */
    method SendPackets(t: Transport) returns (out: Outcome)
      requires Valid()
      modifies this`nextSeq, this`lastSeq, this`sealed, this`offset, this`written, this`log, t
      ensures out != Failed ==> Valid()
      ensures var (w, packets, n, o) := SendLoop(old(View()), t.answer, old(t.calls));
              View() == w && t.calls == n && out == o && t.accepted == old(t.accepted) + packets
    {
      hide SendPacket, SendLoop, WriterOkAt, Remains, BytesLeft;
      ghost var sent := [];
      ghost var goal := SendLoop(View(), t.answer, t.calls);
      AllRemains(View(), t.answer, t.calls);
      while written < messagesLen
        invariant Valid()
        invariant t.accepted == old(t.accepted) + sent
        invariant Remains(goal, sent, View(), t.answer, t.calls)
        decreases messagesLen - written, BytesLeft(View())
      {
        RoundRemains(goal, sent, View(), t.answer, t.calls);
        ghost var packet := SendPacket(View(), true).1;
        var end := SendRound(t);
        if end.Some? {
          return end.value;
        }
        sent := sent + [packet.value];
      }
      NoneRemains(goal, sent, View(), t.answer, t.calls);
      return Done;
    }

    /** send_flight; closed says that writing is shut down or there is no transport,
        which is otherwise asked for its MTU. */
    method SendFlight(t: Transport, closed: bool, noQuery: bool, mtuAnswer: int) returns (out: Outcome)
      requires Valid()
      modifies this`mtu, this`nextSeq, this`lastSeq, this`sealed, this`offset, this`written, this`log, t
      ensures out != Failed ==> Valid()
      ensures var w0 := old(View());
              var newMtu := UpdateMtu(w0.mtu, noQuery, mtuAnswer);
              && WriterOkAt(w0) && WriterOkAt(w0.(mtu := newMtu))
              && var (w, packets, n, o) := DtlsFlight.SendFlight(w0, closed, newMtu, t.answer, old(t.calls));
                 View() == w && t.calls == n && out == o && t.accepted == old(t.accepted) + packets
    {
      hide SendLoop, WriterOkAt;
      ghost var newMtu := UpdateMtu(mtu, noQuery, mtuAnswer);
      QuietKeepsOkAt(View(), View().(mtu := newMtu));
      if closed {
        return Shut;
      }
      mtu := UpdateMtu(mtu, noQuery, mtuAnswer);
      out := SendPackets(t);
      if out == Done {
        var r := t.Flush();
        if r <= 0 {
          return Blocked(-1);
        }
      }
    }

    /** dtls1_flush_flight. */
    method FlushFlight(t: Transport, closed: bool, noQuery: bool, mtuAnswer: int) returns (out: Outcome)
      requires Valid()
      modifies this`complete, this`mtu, this`nextSeq, this`lastSeq, this`sealed, this`offset, this`written, this`log, t
      ensures out != Failed ==> Valid()
      ensures var w0 := old(View()).(complete := true);
              var newMtu := UpdateMtu(w0.mtu, noQuery, mtuAnswer);
              && WriterOkAt(w0) && WriterOkAt(w0.(mtu := newMtu))
              && var (w, packets, n, o) := DtlsFlight.SendFlight(w0, closed, newMtu, t.answer, old(t.calls));
                 View() == w && t.calls == n && out == o && t.accepted == old(t.accepted) + packets
    {
      hide DtlsFlight.SendFlight, WriterOkAt;
      QuietKeepsOkAt(View(), View().(complete := true));
      complete := true;
      out := SendFlight(t, closed, noQuery, mtuAnswer);
    }

    /** DTLSv1_handle_timeout from dtls1_check_timeout_num on, for the given number
        of timeouts, this one included; None when they were too many. */
    method HandleTimeout(t: Transport, timeouts: nat, closed: bool, noQuery: bool, fallback: int, mtuAnswer: int)
        returns (out: Option<Outcome>)
      requires Valid()
      modifies this`mtu, this`nextSeq, this`lastSeq, this`sealed, this`offset, this`written, this`log, t
      ensures out.Some? <==> timeouts <= 12
      ensures out != Some(Failed) ==> Valid()
      ensures var w1 := old(View()).(mtu := FallbackMtu(old(mtu), timeouts, noQuery, fallback));
              if timeouts > MAX_TIMEOUTS then View() == w1 && t.calls == old(t.calls) && t.accepted == old(t.accepted)
              else
                var w2 := Rewind(w1);
                var newMtu := UpdateMtu(w1.mtu, noQuery, mtuAnswer);
                && WriterOkAt(w2) && WriterOkAt(w2.(mtu := newMtu))
                && var (w, packets, n, o) := DtlsFlight.SendFlight(w2, closed, newMtu, t.answer, old(t.calls));
                   View() == w && t.calls == n && out == Some(o) && t.accepted == old(t.accepted) + packets
    {
      hide DtlsFlight.SendFlight, WriterOkAt;
      ghost var w1 := View().(mtu := FallbackMtu(mtu, timeouts, noQuery, fallback));
      QuietKeepsOkAt(View(), w1);
      QuietKeepsOkAt(w1, Rewind(w1).(mtu := w1.mtu));
      mtu := FallbackMtu(mtu, timeouts, noQuery, fallback);
      if timeouts > MAX_TIMEOUTS {
        return None;
      }
      written, offset, log := 0, 0, [];
      var o := SendFlight(t, closed, noQuery, mtuAnswer);
      return Some(o);
    }

    /** dtls1_set_write_state. */
    method SetWriteState(c: Cipher)
      requires Valid()
      modifies this`wEpoch, this`gen, this`lastSeq, this`nextSeq, this`prev, this`cur
      ensures Valid() && View() == NewWriteKeys(old(View()), c)
    {
      hide NumbersOk, Parsed;
      NewKeysKeepNumbers(View(), c);
      ghost var w := View();
      wEpoch, gen := (wEpoch + 1) % EPOCHS, gen + 1;
      lastSeq, nextSeq, prev, cur := nextSeq, 0, cur, c;
      forall i | 0 <= i < messagesLen ensures MsgOk(View(), View().flight[i]) { assert MsgOk(w, w.flight[i]); }
    }
  }

  const MAX_TIMEOUTS := 12

  lemma QuietKeepsOkAt(w: Writer, w': Writer)
    requires WriterOkAt(w)
    requires w' == w.(complete := w'.complete, mtu := w'.mtu) || w' == Rewind(w).(mtu := w'.mtu)
    ensures WriterOkAt(w')
  {
    hide Parsed;
    NumbersFrame(w, w');
    hide NumbersOk;
    forall i | 0 <= i < |w.flight| ensures MsgOk(w', w'.flight[i]) { assert MsgOk(w, w.flight[i]); }
  }

  /** dtls1_init_message and dtls1_finish_message around a message's body: the
      length is written last, by copying the fragment length over it. */
  method BuildMessage(typ: byte, seqNum: nat, body: bytes) returns (msg: array<byte>)
    requires seqNum < SEQ16 && |body| < Limit(3)
    ensures msg[..] == Message(typ, seqNum, body)
  {
    var built := [typ] + Put(0, 3) + Put(seqNum, 2) + Put(0, 3) + PutPrefixed(body, 3);
    msg := new byte[|built|](i requires 0 <= i < |built| => built[i]);
    var i := 0;
    while i < 3
      invariant 0 <= i <= 3
      invariant forall j {:trigger msg[j]} | 0 <= j < |built| ::
          msg[j] == built[if 1 <= j < 1 + i then j + HM_HEADER_LENGTH - 4 else j]
    {
      msg[1 + i] := msg[HM_HEADER_LENGTH - 3 + i];
      i := i + 1;
    }
    LengthFirst(typ, seqNum, body, msg[..]);
  }

  lemma LengthFirst(typ: byte, seqNum: nat, body: bytes, msg: bytes)
    requires var built := [typ] + Put(0, 3) + Put(seqNum, 2) + Put(0, 3) + PutPrefixed(body, 3);
             |msg| == |built| &&
             forall j | 0 <= j < |built| :: msg[j] == built[if 1 <= j < 4 then j + HM_HEADER_LENGTH - 4 else j]
    ensures msg == Message(typ, seqNum, body)
  {
    hide Put;
    var whole := Message(typ, seqNum, body);
    assert forall j | 0 <= j < |msg| :: msg[j] == whole[j];
  }

  /** What a call will have done, when it has sent some packets and the rest is
      still to come. */
  ghost predicate Remains(goal: (Writer, seq<seq<Record>>, nat, Outcome), sent: seq<seq<Record>>,
                          w: Writer, answer: nat -> int, n: nat)
    requires WriterOkAt(w)
  {
    var rest := SendLoop(w, answer, n);
    goal == (rest.0, sent + rest.1, rest.2, rest.3)
  }

  lemma AllRemains(w: Writer, answer: nat -> int, n: nat)
    requires WriterOkAt(w)
    ensures Remains(SendLoop(w, answer, n), [], w, answer, n)
  {
    var rest := SendLoop(w, answer, n);
    assert [] + rest.1 == rest.1;
  }

  lemma NoneRemains(goal: (Writer, seq<seq<Record>>, nat, Outcome), sent: seq<seq<Record>>,
                    w: Writer, answer: nat -> int, n: nat)
    requires WriterOkAt(w) && w.written >= |w.flight| && Remains(goal, sent, w, answer, n)
    ensures goal == (w, sent, n, Done)
  {
    assert sent + [] == sent;
  }

  lemma RoundRemains(goal: (Writer, seq<seq<Record>>, nat, Outcome), sent: seq<seq<Record>>,
                     w: Writer, answer: nat -> int, n: nat)
    requires WriterOkAt(w) && w.written < |w.flight| && Remains(goal, sent, w, answer, n)
    ensures SendPacket(w, true).1 == SendPacket(w, false).1
    ensures var (w', packet) := SendPacket(w, answer(n) > 0);
            && w'.flight == w.flight
            && if packet.None? then goal == (w', sent, n, Failed)
               else
                 WriterOkAt(w') &&
                 if answer(n) <= 0 then goal == (w', sent, n + 1, Blocked(answer(n)))
                 else
                   && w'.written <= |w'.flight|
                   && (w'.written > w.written || (w'.written == w.written && BytesLeft(w') < BytesLeft(w)))
                   && Remains(goal, sent + [packet.value], w', answer, n + 1)
  {
    hide SealPacket, WriterOkAt, BytesLeft;
    RoundOk(w, answer(n) > 0);
    assert sent + [] == sent;
    if SendPacket(w, true).1.Some? {
      PacketProgress(w);
      var (w', packet) := SendPacket(w, true);
      if answer(n) > 0 {
        var rest := SendLoop(w', answer, n + 1);
        assert sent + ([packet.value] + rest.1) == sent + [packet.value] + rest.1;
      }
    }
  }

  lemma AddKeepsOkAt(w: Writer, isCcs: bool, data: bytes)
    ensures WriterOkAt(w) && (!isCcs ==> Parsed(data, 0).Some?) ==> WriterOkAt(AddOutgoing(w, isCcs, data).0)
  {
    if WriterOkAt(w) && (!isCcs ==> Parsed(data, 0).Some?) {
      hide Parsed;
      var w1 := if w.complete then Clear(w) else w;
      NumbersFrame(w, w1);
      if AddOutgoing(w, isCcs, data).1 { PushKeepsOkAt(w1, AddOutgoing(w, isCcs, data).0); }
    }
  }

  lemma PushKeepsOkAt(w: Writer, w': Writer)
    requires WriterOkAt(w) && |w.flight| < N && |w'.flight| == |w.flight| + 1
    requires w' == w.(flight := w'.flight, transcript := w'.transcript, writeSeq := w'.writeSeq)
    requires w'.flight[..|w.flight|] == w.flight && MsgOk(w, w'.flight[|w.flight|])
    ensures WriterOkAt(w')
  {
    hide Parsed;
    NumbersFrame(w, w');
    hide NumbersOk;
    forall i | 0 <= i < |w'.flight| ensures MsgOk(w', w'.flight[i]) {
      if i < |w.flight| { assert w'.flight[i] == w.flight[i] && MsgOk(w, w.flight[i]); }
    }
  }

  lemma PrevEpoch(gen: nat)
    requires Epoch(gen) >= 1
    ensures gen >= 1 && Epoch(gen - 1) == Epoch(gen) - 1
  {}
}
