/** The receiving half of DTLS1_STATE, updated in place. */
module DtlsReadState {
  import opened Bytes
  import opened Reassembly
  import opened ReplayWindow
  import opened DtlsWire
  import opened DtlsReader

  class ReadState {
    var readSeq: nat
    var hasMessage: bool
    var rEpoch: nat
    /** Stands for aead_read_ctx: which generation of keys it holds. */
    var gen: nat
    var ccs: bool
    const incoming: array<HmFragment?>
    const bitmap: Window
    ghost var slots: seq<Option<Partial>>
    ghost var Repr: set<object?>

    ghost predicate Valid()
      reads this, Repr
    {
      Shape() && RingOk(View())
    }

    /** The fields represent View(), whatever state that is. */
    ghost predicate Shape()
      reads this, Repr
    {
      && this in Repr && incoming in Repr && bitmap in Repr
      && bitmap.Valid()
      && rEpoch == Epoch(gen)
      && incoming.Length == N == |slots|
      && (forall i | 0 <= i < N :: incoming[i] == null <==> slots[i].None?)
      && (forall i | 0 <= i < N && incoming[i] != null :: incoming[i].Footprint() <= Repr)
      && (forall i | 0 <= i < N && incoming[i] != null :: Holds(incoming[i], slots[i].value))
      && (forall i | 0 <= i < N && incoming[i] != null ::
            incoming[i].Footprint() !! {this, incoming, bitmap})
      && (forall i, j | 0 <= i < j < N && incoming[i] != null && incoming[j] != null ::
            incoming[i].Footprint() !! incoming[j].Footprint())
    }

    static ghost predicate Holds(f: HmFragment, p: Partial)
      reads f.Footprint()
    {
      f.Valid() && f.View() == p
    }

    ghost function View(): Reader
      reads this, bitmap
    {
      Reader(readSeq, slots, hasMessage, gen, bitmap.recorded, ccs)
    }

    constructor ()
      ensures Valid() && fresh(Repr) && View() == Start()
    {
      readSeq, hasMessage, rEpoch, ccs := 0, false, 0, false;
      incoming := new HmFragment?[N](_ => null);
      bitmap := new Window();
      gen, slots := 0, seq(N, _ => None);
      new;
      StartOk();
      hide RingOk, Window.Valid;
      Repr := {this, incoming, bitmap};
    }

    /** Puts a message nobody else refers to into a free slot. */
    method File(k: nat, frag: HmFragment)
      requires Shape() && k < N && incoming[k] == null
      requires frag.Valid() && frag.Footprint() !! Repr
      modifies this`slots, this`Repr, incoming
      ensures Shape() && Repr == old(Repr) + frag.Footprint()
      ensures incoming[k] == frag && frag.View() == old(frag.View())
      ensures View() == old(View()).(slots := old(slots)[k := Some(frag.View())])
    {
      ghost var p := frag.View();
      hide HmFragment.Valid, HmFragment.View, Window.Valid;
      incoming[k] := frag;
      slots := slots[k := Some(p)];
      Repr := Repr + frag.Footprint();
      forall i | 0 <= i < N && incoming[i] != null
        ensures Holds(incoming[i], slots[i].value)
      {
        if i != k { assert old(Holds(incoming[i], slots[i].value)); }
      }
    }

    /** dtls1_get_incoming_message: finds or creates the slot of a fragment. */
    method GetIncoming(h: Header) returns (frag: HmFragment?, alert: Alert)
      requires Shape() && RingOk(View())
      modifies this`slots, this`Repr, incoming
      ensures Shape() && fresh(Repr - old(Repr))
      ensures var (p, a) := Slot(old(View()), h);
              && (frag == null <==> p.None?)
              && (frag == null ==> alert == a && View() == old(View()))
              && (frag != null ==>
                    && frag == incoming[h.seqNum % N] && frag.View() == p.value
                    && View() == old(View()).(slots := old(slots)[h.seqNum % N := p]))
    {
      if h.seqNum < readSeq || h.seqNum - readSeq >= N {
        return null, InternalError;
      }
      SameResidue(View(), h.seqNum);
      var idx := h.seqNum % N;
      frag, alert := incoming[idx], InternalError;
      if frag == null {
        frag := new HmFragment(h.typ, h.seqNum, h.msgLen, gen);
        File(idx, frag);
        return;
      }
      assert Holds(frag, slots[idx].value);
      assert frag.seqNum == h.seqNum;
      if frag.typ != h.typ || frag.msgLen != h.msgLen {
        return null, IllegalParameter;
      }
      assert slots == slots[idx := Some(frag.View())];
    }

    /** Copies a fragment into the message of its slot, unless it is complete. */
    method Fill(k: nat, h: Header, body: bytes)
      requires Shape() && k < N && incoming[k] != null
      requires |body| == h.fragLen && h.fragOff + h.fragLen <= incoming[k].msgLen
      modifies Repr
      ensures Shape() && Repr == old(Repr)
      ensures var p := old(slots[k].value);
              && |p.body| == old(incoming[k].msgLen)
              && View() == old(View()).(slots :=
                   old(slots)[k := Some(if Complete(p) then p else Merge(p, h.fragOff, body, gen))])
    {
      var frag := incoming[k];
      assert Holds(frag, slots[k].value);
      frag.KnowsComplete();
      if frag.reassembly == null {
        assert slots == slots[k := Some(frag.View())];
        return;
      }
      frag.Receive(h.fragOff, body, gen);
      slots := slots[k := Some(frag.View())];
      forall i | 0 <= i < N && incoming[i] != null
        ensures Holds(incoming[i], slots[i].value)
      {
        if i != k {
          assert old(Holds(incoming[i], slots[i].value));
          assert incoming[i].Footprint() !! frag.Footprint();
        }
      }
    }

    /** A fragment that belongs to some message of the current window. */
    method Store(h: Header, body: bytes) returns (alert: Option<Alert>)
      requires Shape() && RingOk(View())
      requires |body| == h.fragLen && h.fragOff + h.fragLen <= h.msgLen
      modifies Repr
      ensures Shape() && fresh(Repr - old(Repr))
      ensures var st := old(View());
              match Slot(st, h)
              case (None, a) => alert == Some(a) && View() == st
              case (Some(p), _) =>
                && alert == None && |p.body| == h.msgLen
                && View() == st.(slots := st.slots[h.seqNum % N :=
                     Some(if Complete(p) then p else Merge(p, h.fragOff, body, st.gen))])
    {
      hide RingOk, Window.Valid;
      var frag, fault := GetIncoming(h);
      if frag == null {
        return Some(fault);
      }
      Fill(h.seqNum % N, h, body);
      return None;
    }

    /** One fragment of a record's payload. */
    method AcceptFragment(h: Header, body: bytes, maxLen: nat) returns (alert: Option<Alert>)
      requires Valid() && FitsHeader(h) && |body| == h.fragLen
      modifies Repr
      ensures Valid() && fresh(Repr - old(Repr))
      ensures (View(), alert) == Accept(old(View()), h, body, maxLen)
    {
      AcceptKeepsRing(View(), h, body, maxLen);
      if h.fragOff > h.msgLen || h.fragOff + h.fragLen > h.msgLen || h.msgLen > maxLen {
        return Some(IllegalParameter);
      }
      if rEpoch == 1 && h.seqNum != readSeq {
        return Some(UnexpectedMessage);
      }
      if h.seqNum < readSeq || h.seqNum > readSeq + N {
        return None;
      }
      alert := Store(h, body);
    }

    /** The loop over the fragments of a handshake record. */
    method AcceptPayload(plain: bytes, maxLen: nat) returns (alert: Option<Alert>)
      requires Valid()
      modifies Repr
      ensures Valid() && fresh(Repr - old(Repr))
      ensures (View(), alert) == Fragments(old(View()), plain, maxLen)
    {
      var cbs := plain;
      while |cbs| > 0
        invariant Valid() && fresh(Repr - old(Repr))
        invariant Fragments(View(), cbs, maxLen) == Fragments(old(View()), plain, maxLen)
        decreases |cbs|
      {
        var f := ParseFragment(cbs);
        if f.Fail? {
          return Some(DecodeError);
        }
        alert := AcceptFragment(f.value.0, f.value.1, maxLen);
        if alert.Some? {
          return;
        }
        cbs := f.rest;
      }
      return None;
    }

    /** dtls_open_record: epoch, replay window, protection, then the window is
        told of the record. */
    method OpenRec(rec: Record) returns (status: Status, plain: bytes)
      requires Shape() && rec.number < SEQ_LIMIT
      modifies bitmap
      ensures Shape() && Repr == old(Repr)
      ensures (View(), status, plain) == OpenRecord(old(View()), rec)
    {
      var stale := bitmap.ShouldDiscard(rec.number);
      if EpochOf(rec.number) != rEpoch || stale {
        return Discard, [];
      }
      var text := Open(gen, rec.body);
      if text.None? {
        return Discard, [];
      }
      if |text.value| > MAX_PLAIN {
        return Error(RecordOverflow), [];
      }
      bitmap.Record(rec.number);
      if rec.typ == ALERT {
        return Alerted, [];
      }
      return Success, text.value;
    }

    method OpenHandshakeRecord(rec: Record, maxLen: nat) returns (status: Status)
      requires Valid() && rec.number < SEQ_LIMIT
      modifies Repr
      ensures Valid() && fresh(Repr - old(Repr))
      ensures (View(), status) == OpenHandshake(old(View()), rec, maxLen)
    {
      var plain;
      RingIgnores(View(), OpenRecord(View(), rec).0.window, ccs);
      status, plain := OpenRec(rec);
      if status != Success {
        return;
      }
      if rec.typ == APPLICATION_DATA {
        return if IsNullCipher(gen) then Error(UnexpectedMessage) else Discard;
      } else if rec.typ == CHANGE_CIPHER_SPEC {
        if !IsNullCipher(gen) {
          return Error(UnexpectedMessage);
        }
        if |plain| != 1 || plain[0] != CCS_BYTE {
          return Error(IllegalParameter);
        }
        RingIgnores(View(), View().window, true);
        ccs := true;
        return Success;
      } else if rec.typ == HANDSHAKE {
        var alert := AcceptPayload(plain, maxLen);
        return if alert.Some? then Error(alert.value) else Success;
      }
      return Error(UnexpectedMessage);
    }

    /** dtls1_open_change_cipher_spec. */
    method OpenCcsRecord(rec: Record, maxLen: nat) returns (status: Status)
      requires Valid() && rec.number < SEQ_LIMIT
      modifies Repr
      ensures Valid() && fresh(Repr - old(Repr))
      ensures (View(), status) == OpenChangeCipherSpec(old(View()), rec, maxLen)
    {
      hide OpenHandshake, RingOk;
      status := Success;
      if !ccs {
        status := OpenHandshakeRecord(rec, maxLen);
        if status != Success {
          return;
        }
      }
      if !ccs {
        return Discard;
      }
      RingIgnores(View(), View().window, false);
      ccs := false;
    }

    method GetCurrent() returns (raw: Option<bytes>)
      requires Valid()
      modifies this`hasMessage
      ensures Valid() && Repr == old(Repr)
      ensures (View(), raw) == GetMessage(old(View()))
    {
      GetKeepsRing(View());
      var frag := incoming[readSeq % N];
      if frag == null {
        return None;
      }
      assert Holds(frag, slots[readSeq % N].value);
      frag.KnowsComplete();
      if frag.reassembly != null {
        return None;
      }
      frag.KnowsRaw();
      hasMessage := true;
      return Some(frag.data[..]);
    }

    method Next()
      requires Valid() && hasMessage && CurrentComplete(View())
      modifies this`slots, this`readSeq, this`hasMessage, incoming
      ensures Valid() && Repr == old(Repr)
      ensures View() == NextMessage(old(View()))
    {
      hide RingOk, HmFragment.Valid, HmFragment.View, Window.Valid;
      NextKeepsRing(View());
      Drop(readSeq % N);
      readSeq := (readSeq + 1) % SEQ16;
      hasMessage := false;
    }

    method Drop(k: nat)
      requires Shape() && k < N
      modifies this`slots, incoming
      ensures Shape() && Repr == old(Repr)
      ensures View() == old(View()).(slots := old(slots)[k := None])
    {
      hide HmFragment.Valid, HmFragment.View, Window.Valid;
      incoming[k] := null;
      slots := slots[k := None];
      forall i | 0 <= i < N && incoming[i] != null
        ensures Holds(incoming[i], slots[i].value)
      {
        assert old(Holds(incoming[i], slots[i].value));
      }
    }

    method Unprocessed() returns (b: bool)
      requires Valid()
      ensures b == HasUnprocessed(View())
    {
      var current := readSeq % N;
      var i := 0;
      while i < N
        invariant 0 <= i <= N
        invariant forall k | 0 <= k < i :: (hasMessage && k == current) || slots[k].None?
      {
        if !(hasMessage && i == current) && incoming[i] != null {
          assert slots[i].Some?;
          return true;
        }
        i := i + 1;
      }
      return false;
    }

    /** dtls1_set_read_state. */
    method NewReadKeys() returns (ok: bool)
      requires Valid()
      modifies this`rEpoch, this`gen, this`ccs, bitmap
      ensures Valid() && Repr == old(Repr)
      ensures ok == SetReadState(old(View())).Some?
      ensures View() == if ok then SetReadState(old(View())).value else old(View())
    {
      ok := Unprocessed();
      ok := !ok;
      if ok {
        SetReadStateKeepsRing(View());
        SwitchKeys();
      }
    }

    method SwitchKeys()
      requires Shape()
      modifies this`rEpoch, this`gen, this`ccs, bitmap
      ensures Shape() && Repr == old(Repr)
      ensures View() == old(View()).(gen := old(gen) + 1, window := {}, ccs := false)
    {
      hide HmFragment.Valid, HmFragment.View, Window.Valid;
      rEpoch := (rEpoch + 1) % EPOCHS;
      gen := gen + 1;
      bitmap.Reset();
      ccs := false;
    }
  }
}
