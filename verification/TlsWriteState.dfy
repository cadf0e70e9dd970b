/** The writing half of SSL3_STATE, updated in place. */
module TlsWriteState {
  import opened Bytes
  import opened TlsBuffer
  import opened TlsWriter

  class WriteState {
    var pendingHs: bytes
    var pendingFlight: bytes
    var hasFlight: bool
    var flightOffset: nat
    const writeBuffer: SSLBuffer
    var wpendPending: bool
    var wpendTot: nat
    var wpendBuf: nat
    var wpendType: byte
    var wpendRet: nat
    var wnum: nat
    var aead: Aead
    var closing: Closing
    var canEarly: bool
    var earlyWritten: nat
    var calls: nat
    /** Stands for write_sequence: how many records have been sealed. */
    var writeSequence: nat
    ghost var buffered: Buf
    ghost var asked: nat
    ghost var failed: bool
    ghost var wire: bytes
    ghost var sealed: seq<Sealing>

    ghost function Footprint(): set<object>
      reads this, writeBuffer
    {
      {this, writeBuffer, writeBuffer.inline} + if writeBuffer.buf == null then {} else {writeBuffer.buf}
    }

    ghost predicate Valid()
      reads this, writeBuffer, Footprint()
    {
      && Holds(writeBuffer, buffered) && WriterOk(View())
      && (!hasFlight ==> pendingFlight == [])
      && (wpendPending ==> wpendRet == wpendTot)
      && writeSequence == |sealed|
    }

    static ghost predicate Holds(b: SSLBuffer, v: Buf)
      reads b, b.buf, b.inline
    {
      b.Valid() && b.View() == v
    }

    ghost function View(): Writer
      reads this
    {
      Writer(pendingHs, if hasFlight then Some(pendingFlight) else None, flightOffset, buffered,
             if wpendPending then Some(Pending(wpendTot, wpendBuf, wpendType)) else None,
             wnum, aead, closing, canEarly, earlyWritten, calls, asked, failed, wire, sealed)
    }

    constructor ()
      ensures Valid() && fresh(Footprint())
      ensures View() == Start()
    {
      pendingHs, pendingFlight, hasFlight, flightOffset := [], [], false, 0;
      writeBuffer := new SSLBuffer();
      wpendPending, wpendTot, wpendBuf, wpendType, wpendRet := false, 0, 0, 0, 0;
      wnum, aead, closing := 0, Aead(true, RECORD_HEADER, RECORD_HEADER), Closing(Open, false, 0, 0);
      canEarly, earlyWritten, calls, writeSequence := false, 0, 0, 0;
      asked, failed, wire, sealed := 0, false, [], [];
      buffered := Start().buf;
    }

    /** tls_seal_record. */
    method SealRecord(e: Env, typ: byte, plain: bytes, room: nat) returns (out: Option<bytes>)
      requires Valid()
      modifies this`writeSequence, this`sealed, this`failed
      ensures Valid()
      ensures match Seal(old(View()), e, typ, plain, room)
              case None => out == None && View() == old(View()).(failed := true)
              case Some(s) => out == Some(s.wire) && View() == old(View()).(sealed := old(sealed) + [s])
    {
      hide Holds, BufOk;
      out := e.seal(writeSequence, typ, plain);
      if out.None? || |out.value| > room {
        failed := true;
        return None;
      }
      sealed := sealed + [Sealing(typ, plain, out.value)];
      writeSequence := writeSequence + 1;
    }

    method AddRecordToFlight(e: Env, typ: byte, plain: bytes) returns (ok: bool)
      requires Valid()
      modifies this`hasFlight, this`pendingFlight, this`writeSequence, this`sealed, this`failed
      ensures Valid()
      ensures (View(), ok) == AddRecord(old(View()), e, typ, plain)
    {
      hide Holds, BufOk;
      hasFlight := true;
      var out := SealRecord(e, typ, plain, |plain| + aead.overhead);
      if out.None? {
        return false;
      }
      pendingFlight := pendingFlight + out.value;
      return true;
    }

    method FlushPendingHsData(e: Env) returns (ok: bool)
      requires Valid()
      modifies this`pendingHs, this`hasFlight, this`pendingFlight, this`writeSequence, this`sealed, this`failed
      ensures Valid()
      ensures (View(), ok) == FlushHs(old(View()), e)
    {
      if |pendingHs| == 0 {
        return true;
      }
      var data := pendingHs;
      pendingHs := [];
      ok := AddRecordToFlight(e, HANDSHAKE, data);
    }

    method AddHandshakeMessage(e: Env, msg: bytes) returns (ok: bool)
      requires Valid() && EnvOk(e)
      modifies this`pendingHs, this`hasFlight, this`pendingFlight, this`writeSequence, this`sealed, this`failed
      ensures Valid()
      ensures (View(), ok) == AddMessage(old(View()), e, msg)
    {
      if aead.nullCipher {
        ok := AddInChunks(e, msg);
      } else {
        ok := AddPacked(e, msg);
      }
    }

    method AddInChunks(e: Env, msg: bytes) returns (ok: bool)
      requires Valid() && EnvOk(e)
      modifies this`hasFlight, this`pendingFlight, this`writeSequence, this`sealed, this`failed
      ensures Valid()
      ensures (View(), ok) == AddChunks(old(View()), e, msg)
    {
      hide AddRecord;
      var rest := msg;
      while |rest| > 0
        invariant Valid()
        invariant AddChunks(View(), e, rest) == AddChunks(old(View()), e, msg)
        decreases |rest|
      {
        var n := Min(|rest|, e.maxFragment);
        var chunk := rest[..n];
        rest := rest[n..];
        ok := AddRecordToFlight(e, HANDSHAKE, chunk);
        if !ok {
          return false;
        }
      }
      return true;
    }

    method MakeHsRoom(e: Env) returns (ok: bool)
      requires Valid() && EnvOk(e)
      modifies this`pendingHs, this`hasFlight, this`pendingFlight, this`writeSequence, this`sealed, this`failed
      ensures Valid()
      ensures (View(), ok) == MakeRoom(old(View()), e)
    {
      if |pendingHs| < e.maxFragment {
        return true;
      }
      ok := FlushPendingHsData(e);
    }

    method PackSome(e: Env, rest: bytes) returns (ok: bool, n: nat)
      requires Valid() && EnvOk(e) && |rest| > 0
      modifies this`pendingHs, this`hasFlight, this`pendingFlight, this`writeSequence, this`sealed, this`failed
      ensures Valid() && ok == MakeRoom(old(View()), e).1
      ensures var w1 := MakeRoom(old(View()), e).0;
              if !ok then View() == w1
              else n == Min(|rest|, e.maxFragment - |w1.hs|) && View() == w1.(hs := w1.hs + rest[..n])
    {
      hide MakeRoom, Holds, BufOk;
      n := 0;
      ok := MakeHsRoom(e);
      if ok {
        n := Min(|rest|, e.maxFragment - |pendingHs|);
        pendingHs := pendingHs + rest[..n];
      }
    }

    method AddPacked(e: Env, msg: bytes) returns (ok: bool)
      requires Valid() && EnvOk(e)
      modifies this`pendingHs, this`hasFlight, this`pendingFlight, this`writeSequence, this`sealed, this`failed
      ensures Valid()
      ensures (View(), ok) == Pack(old(View()), e, msg)
    {
      hide MakeRoom, Holds, BufOk;
      var rest := msg;
      while |rest| > 0
        invariant Valid()
        invariant Pack(View(), e, rest) == Pack(old(View()), e, msg)
        decreases |rest|
      {
        var n;
        ok, n := PackSome(e, rest);
        if !ok {
          return false;
        }
        rest := rest[n..];
      }
      return true;
    }

    method AddCcs(e: Env) returns (ok: bool)
      requires Valid()
      modifies this`pendingHs, this`hasFlight, this`pendingFlight, this`writeSequence, this`sealed, this`failed
      ensures Valid()
      ensures (View(), ok) == AddChangeCipherSpec(old(View()), e)
    {
      hide AddRecord, FlushHs;
      ok := FlushPendingHsData(e);
      if !ok {
        return false;
      }
      ok := AddRecordToFlight(e, CHANGE_CIPHER_SPEC, [CCS_BYTE]);
    }

    /** BIO_write of n bytes. */
    method TransportWrite(e: Env, data: bytes) returns (r: int)
      requires Valid()
      modifies this`calls, this`wire
      ensures Valid() && r == Answer(old(View()), e, |data|)
      ensures View() == old(View()).(calls := old(calls) + 1, wire := if r > 0 then old(wire) + data[..r] else old(wire))
    {
      hide Holds, BufOk;
      r := e.answer(calls);
      if r > |data| {
        r := |data|;
      }
      calls := calls + 1;
      if r > 0 { wire := wire + data[..r]; }
    }

    method WriteFromBuffer(e: Env) returns (r: int)
      requires Valid() && writeBuffer.size > 0
      modifies this`calls, this`wire, this`buffered, writeBuffer
      ensures Valid() && writeBuffer.buf == old(writeBuffer.buf)
      ensures old(buffered.size) > 0 && (View(), r) == WriteSome(old(View()), e)
    {
      var data := writeBuffer.Data();
      hide Contents, BufOk, Holds, Consumed;
      r := TransportWrite(e, data);
      if r > 0 { ConsumeFront(r); }
    }

    method ConsumeFront(n: nat)
      requires Valid() && n <= buffered.size
      modifies this`buffered, writeBuffer
      ensures Valid() && writeBuffer.buf == old(writeBuffer.buf)
      ensures View() == old(View()).(buf := Consumed(old(buffered), n))
    {
      hide BufOk, Consumed;
      writeBuffer.Consume(n);
      buffered := Consumed(buffered, n);
    }

    /** tls_write_buffer_flush. */
    method FlushWriteBuffer(e: Env) returns (r: int)
      requires Valid()
      modifies this`calls, this`wire, this`buffered, writeBuffer
      ensures Valid() && Footprint() <= old(Footprint())
      ensures (View(), r) == FlushBuf(old(View()), e)
    {
      hide WriteSome, Cleared, BufOk;
      while writeBuffer.size > 0
        invariant Valid() && writeBuffer.buf == old(writeBuffer.buf)
        invariant FlushBuf(View(), e) == FlushBuf(old(View()), e)
        decreases buffered.size
      {
        r := WriteFromBuffer(e);
        if r <= 0 {
          return;
        }
      }
      writeBuffer.Clear();
      buffered := Cleared(buffered);
      return 1;
    }

    /** The loop that writes pending_flight. */
    method WritePendingFlight(e: Env) returns (r: int)
      requires Valid()
      modifies this`calls, this`wire, this`flightOffset
      ensures Valid()
      ensures (View(), r) == WriteFlight(old(View()), e)
    {
      hide BufOk, Holds;
      while flightOffset < |pendingFlight|
        invariant Valid()
        invariant WriteFlight(View(), e) == WriteFlight(old(View()), e)
        decreases |pendingFlight| - flightOffset
      {
        r := WriteFromFlight(e);
        if r <= 0 {
          return;
        }
      }
      return 1;
    }

    method WriteFromFlight(e: Env) returns (r: int)
      requires Valid() && flightOffset < |pendingFlight|
      modifies this`calls, this`wire, this`flightOffset
      ensures Valid()
      ensures (View(), r) == WriteFlightSome(old(View()), e)
    {
      hide BufOk, Holds;
      r := TransportWrite(e, pendingFlight[flightOffset..]);
      if r > 0 {
        flightOffset := flightOffset + r;
      }
    }

    method FinishPendingFlight(e: Env) returns (r: int)
      requires Valid()
      modifies this`calls, this`wire, this`flightOffset, this`pendingFlight, this`hasFlight
      ensures Valid()
      ensures (View(), r) == FinishFlight(old(View()), e)
    {
      hide BufOk, Holds, WriteFlight;
      r := WritePendingFlight(e);
      if r <= 0 {
        return;
      }
      r := TransportFlush(e);
      if r <= 0 {
        return -1;
      }
      ResetFlight();
      return 1;
    }

    /** BIO_flush. */
    method TransportFlush(e: Env) returns (r: int)
      requires Valid()
      modifies this`calls
      ensures Valid() && r == e.answer(old(calls))
      ensures View() == old(View()).(calls := old(calls) + 1)
    {
      hide BufOk, Holds;
      r := e.answer(calls);
      calls := calls + 1;
    }

    method ResetFlight()
      requires Valid()
      modifies this`flightOffset, this`pendingFlight, this`hasFlight
      ensures Valid()
      ensures View() == old(View()).(flight := None, off := 0)
    {
      hide BufOk, Holds;
      pendingFlight, hasFlight, flightOffset := [], false, 0;
    }

    /** tls_flush_flight. */
    method Flush(e: Env) returns (r: int)
      requires Valid()
      modifies Footprint()
      ensures Valid() && Footprint() <= old(Footprint())
      ensures (View(), r) == FlushFlight(old(View()), e)
    {
      hide BufOk, Holds, FlushHs, FlushBuf, FinishFlight;
      var ok := FlushPendingHsData(e);
      if !ok {
        return -1;
      }
      if !hasFlight {
        return 1;
      }
      if closing.shutdown != Open || |pendingFlight| > INT_MAX {
        return -1;
      }
      r := FlushFirst(e);
      if r <= 0 {
        return;
      }
      r := FinishPendingFlight(e);
    }

    /** Pending data in the write buffer goes out before the flight. */
    method FlushFirst(e: Env) returns (r: int)
      requires Valid()
      modifies this`calls, this`wire, this`buffered, writeBuffer
      ensures Valid() && Footprint() <= old(Footprint())
      ensures (View(), r) == if old(buffered.size) > 0 then FlushBuf(old(View()), e) else (old(View()), 1)
    {
      if writeBuffer.size == 0 {
        return 1;
      }
      r := FlushWriteBuffer(e);
    }

    /** tls_write_pending. */
    method WritePendingRecord(e: Env, typ: byte, len: nat, id: nat) returns (r: int)
      requires Valid() && wpendPending
      modifies this`calls, this`wire, this`buffered, this`wpendPending, writeBuffer
      ensures Valid() && Footprint() <= old(Footprint())
      ensures (View(), r) == WritePending(old(View()), e, typ, len, id)
    {
      hide BufOk, Holds, FlushBuf;
      if wpendTot > len || (!e.movingBuffer && wpendBuf != id) || wpendType != typ {
        return -1;
      }
      r := FlushWriteBuffer(e);
      if r <= 0 {
        return;
      }
      wpendPending := false;
      return wpendRet;
    }

    method MakeBufferRoom(e: Env, n: nat) returns (ok: bool)
      requires Valid()
      modifies this`buffered, this`asked, writeBuffer, writeBuffer.inline
      ensures Valid() && fresh(Footprint() - old(Footprint()))
      ensures (View(), ok) == Enlarge(old(View()), e, n)
    {
      hide BufOk, Grown, Holds;
      asked := if n > asked then n else asked;
      ok := GrowBuffer(|pendingFlight| - flightOffset + aead.prefix, n, e.alloc(calls));
    }

    method GrowBuffer(headerLen: nat, n: nat, a: Alloc) returns (ok: bool)
      requires Holds(writeBuffer, buffered) && BufOk(buffered)
      modifies this`buffered, writeBuffer, writeBuffer.inline
      ensures Holds(writeBuffer, buffered) && (buffered, ok) == Grown(old(buffered), headerLen, n, a)
      ensures fresh(Footprint() - old(Footprint()))
    {
      hide BufOk, Grown, SSLBuffer.Valid, SSLBuffer.View;
      ok := writeBuffer.EnsureCap(headerLen, n, a);
      buffered := Grown(buffered, headerLen, n, a).0;
    }

    method AppendToBuffer(data: bytes)
      requires Valid() && |data| <= buffered.cap - buffered.size
      modifies this`buffered, writeBuffer, writeBuffer.buf
      ensures Valid() && Footprint() == old(Footprint())
      ensures View() == old(View()).(buf := Appended(old(buffered), data))
    {
      hide BufOk, Appended;
      writeBuffer.Append(data);
      buffered := Appended(buffered, data);
    }

    /** Makes room for n bytes and moves the flight to the front of them. */
    method TakeFlight(e: Env, n: nat) returns (ok: bool)
      requires Valid() && buffered.size == 0 && |pendingFlight| - flightOffset <= n
      modifies this`buffered, this`asked, this`flightOffset, this`pendingFlight, this`hasFlight, Footprint() - {this}
      ensures Valid() && fresh(Footprint() - old(Footprint()))
      ensures (View(), ok) == MoveFlight(old(View()), e, n)
    {
      hide BufOk, Enlarge, Appended, Holds;
      ok := MakeBufferRoom(e, n);
      if ok && hasFlight {
        ShiftFlight();
      }
    }

    method ShiftFlight()
      requires Valid() && |pendingFlight| - flightOffset <= buffered.cap - buffered.size
      modifies this`buffered, this`flightOffset, this`pendingFlight, this`hasFlight, writeBuffer, writeBuffer.buf
      ensures Valid() && Footprint() == old(Footprint())
      ensures View() == old(View()).(buf := Appended(old(buffered), old(pendingFlight[flightOffset..])), flight := None, off := 0)
    {
      hide BufOk, Appended, Holds;
      AppendToBuffer(pendingFlight[flightOffset..]);
      ResetFlight();
    }

    method SealToBuffer(e: Env, typ: byte, plain: bytes) returns (ok: bool)
      requires Valid()
      modifies this`buffered, this`writeSequence, this`sealed, this`failed, Footprint() - {this}
      ensures Valid() && Footprint() == old(Footprint())
      ensures (View(), ok) == SealIntoBuf(old(View()), e, typ, plain)
    {
      assert writeBuffer.size == buffered.size <= buffered.cap == writeBuffer.cap;
      hide BufOk, Appended, Holds;
      var out := SealRecord(e, typ, plain, writeBuffer.cap - writeBuffer.size);
      if out.None? {
        return false;
      }
      AppendToBuffer(out.value);
      return true;
    }

    method RoomNeeded(plain: bytes) returns (n: nat)
      requires Valid()
      ensures n == MaxOut(View(), plain) && n >= |pendingFlight| - flightOffset
    {
      hide BufOk, Holds;
      n := |pendingFlight| - flightOffset;
      if |plain| > 0 {
        n := n + |plain| + aead.overhead;
      }
    }

    method FillBuffer(e: Env, typ: byte, plain: bytes, maxOut: nat) returns (ok: bool)
      requires Valid() && buffered.size == 0
      requires maxOut == MaxOut(View(), plain) && maxOut >= |pendingFlight| - flightOffset
      modifies Footprint()
      ensures Valid() && fresh(Footprint() - old(Footprint()))
      ensures (View(), ok) == Fill(old(View()), e, typ, plain)
    {
      hide BufOk, Holds, MoveFlight, SealIntoBuf, MaxOut;
      ok := TakeFlight(e, maxOut);
      if ok && |plain| > 0 {
        ok := SealToBuffer(e, typ, plain);
      }
    }

    method WriteNewRecord(e: Env, typ: byte, plain: bytes, id: nat) returns (r: int)
      requires Valid() && buffered.size == 0
      modifies Footprint()
      ensures Valid() && fresh(Footprint() - old(Footprint()))
      ensures (View(), r) == WriteNew(old(View()), e, typ, plain, id)
    {
      hide BufOk, Holds, Fill, WritePending, MaxOut;
      var maxOut := RoomNeeded(plain);
      if maxOut == 0 {
        return 0;
      }
      var ok := FillBuffer(e, typ, plain, maxOut);
      if !ok {
        return -1;
      }
      Remember(typ, |plain|, id);
      r := WritePendingRecord(e, typ, |plain|, id);
    }

    /** Memorizes the arguments for a retry. */
    method Remember(typ: byte, len: nat, id: nat)
      requires Valid()
      modifies this`wpendTot, this`wpendBuf, this`wpendType, this`wpendRet, this`wpendPending
      ensures Valid() && wpendPending
      ensures View() == old(View()).(pend := Some(Pending(len, id, typ)))
    {
      hide BufOk, Holds;
      wpendTot, wpendBuf, wpendType, wpendRet, wpendPending := len, id, typ, len, true;
    }

    /** do_tls_write. */
    method DoTlsWrite(e: Env, typ: byte, plain: bytes, id: nat) returns (r: int)
      requires Valid()
      modifies Footprint()
      ensures Valid() && fresh(Footprint() - old(Footprint()))
      ensures (View(), r) == DoWrite(old(View()), e, typ, plain, id)
    {
      hide BufOk, FlushHs, WriteNew, WritePending;
      if wpendPending {
        r := WritePendingRecord(e, typ, |plain|, id);
        return;
      }
      if |plain| > MAX_PLAIN || writeBuffer.size > 0 {
        return -1;
      }
      var ok := FlushPendingHsData(e);
      if !ok {
        return -1;
      }
      r := WriteNewRecord(e, typ, plain, id);
    }

    method AppRecord(e: Env, data: bytes, id: nat, tot: nat, early: bool) returns (r: int)
      requires Valid() && tot <= |data|
      modifies Footprint()
      ensures Valid() && fresh(Footprint() - old(Footprint()))
      ensures (View(), r) == AppRound(old(View()), e, data, id, tot, early)
    {
      hide BufOk, Holds, DoWrite;
      var most := e.maxFragment;
      if early && earlyWritten <= e.maxEarly {
        most := Min(most, e.maxEarly - earlyWritten);
      }
      var nw := Min(most, |data| - tot);
      r := DoTlsWrite(e, APPLICATION_DATA, data[tot..tot + nw], id + tot);
      NoteApp(tot, r, early);
    }

    method NoteApp(tot: nat, r: int, early: bool)
      requires Valid()
      modifies this`wnum, this`earlyWritten
      ensures Valid()
      ensures View() == if r <= 0 then old(View()).(wnum := tot)
                        else if early then old(View()).(earlyWritten := old(earlyWritten) + r) else old(View())
    {
      hide BufOk, Holds;
      if r <= 0 {
        wnum := tot;
      } else if early {
        earlyWritten := earlyWritten + r;
      }
    }

    /** tls_write_app_data. */
    method WriteAppData(e: Env, data: bytes, id: nat, inEarly: bool) returns (r: int, needsHandshake: bool)
      requires Valid()
      modifies Footprint()
      ensures Valid() && fresh(Footprint() - old(Footprint()))
      ensures (View(), r, needsHandshake) == WriteApp(old(View()), e, data, id, inEarly)
    {
      hide BufOk, Holds, AppRound;
      if closing.shutdown != Open {
        return -1, false;
      }
      var tot := wnum;
      wnum := 0;
      if |data| < tot {
        return -1, false;
      }
      var early := inEarly && canEarly;
      r, needsHandshake := WriteAppLoop(e, data, id, tot, early);
    }

    method WriteAppLoop(e: Env, data: bytes, id: nat, start: nat, early: bool) returns (r: int, needsHandshake: bool)
      requires Valid() && start <= |data|
      modifies Footprint()
      ensures Valid() && fresh(Footprint() - old(Footprint()))
      ensures (View(), r, needsHandshake) == AppLoop(old(View()), e, data, id, start, early)
    {
      hide BufOk, Holds, AppRound;
      var tot := start;
      while true
        invariant Valid() && fresh(Footprint() - old(Footprint())) && tot <= |data|
        invariant AppLoop(View(), e, data, id, tot, early) == AppLoop(old(View()), e, data, id, start, early)
        decreases |data| - tot
      {
        if early && earlyWritten >= e.maxEarly {
          wnum, canEarly := tot, false;
          return -1, true;
        }
        r := AppRecord(e, data, id, tot, early);
        if r <= 0 {
          return r, false;
        }
        if r == |data| - tot || e.partialWrite {
          return tot + r, false;
        }
        tot := tot + r;
      }
    }

    /** tls_dispatch_alert. */
    method DispatchAlertRecord(e: Env) returns (r: int)
      requires Valid()
      modifies Footprint()
      ensures Valid() && fresh(Footprint() - old(Footprint()))
      ensures (View(), r) == DispatchAlert(old(View()), e)
    {
      hide BufOk, Holds, DoWrite;
      r := DoTlsWrite(e, ALERT, [closing.level, closing.desc], ALERT_ID);
      if r <= 0 {
        return;
      }
      FinishAlert(e);
      return 1;
    }

    method FinishAlert(e: Env)
      requires Valid()
      modifies this`closing, this`calls
      ensures Valid() && View() == Dispatched(old(View()))
    {
      hide BufOk, Holds;
      closing := closing.(dispatch := false);
      if closing.level == FATAL {
        var ignored := TransportFlush(e);
      }
    }

    /** ssl_send_alert_impl. */
    method SendAlertRecord(e: Env, level: byte, desc: byte) returns (r: int)
      requires Valid() && MayAlert(level, desc)
      modifies Footprint()
      ensures Valid() && fresh(Footprint() - old(Footprint()))
      ensures (View(), r) == SendAlert(old(View()), e, level, desc)
    {
      hide BufOk, DispatchAlert;
      if closing.shutdown != Open {
        return -1;
      }
      closing := Closing(if level == WARNING then CloseSent else ErrorSent, true, level, desc);
      if writeBuffer.size > 0 {
        return -1;
      }
      r := DispatchAlertRecord(e);
    }

    /** tls_set_write_state. */
    method NewWriteKeys(e: Env, overhead: nat, prefix: nat) returns (ok: bool)
      requires Valid()
      modifies this
      ensures Valid() && Footprint() == old(Footprint())
      ensures (View(), ok) == SetWriteState(old(View()), e, overhead, prefix)
    {
      hide BufOk, Holds, FlushHs;
      ok := FlushPendingHsData(e);
      if ok {
        aead := Aead(false, overhead, prefix);
      }
    }
  }
}
