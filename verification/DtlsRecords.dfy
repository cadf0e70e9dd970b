/** What becomes of one arriving DTLS record, by what it carries: which are read,
    which are passed over and which end the connection. */
module DtlsRecords {
  import opened Bytes
  import opened Reassembly
  import opened ReplayWindow
  import opened DtlsWire
  import opened DtlsReader

  // ---------- The record layer ----------

  /** The record is of the current epoch, its number was not seen before and is
      within 64 of the highest that was, and it opens to plain. */
  predicate Arrives(st: Reader, rec: Record, plain: bytes) {
    && rec.number / 0x1_0000_0000_0000 == st.gen % 0x1_0000
    && rec.number !in st.window && (forall n | n in st.window :: n < rec.number + 64)
    && rec.body == Sealed(st.gen, plain)
  }

  /** The record is marked as seen, and nothing else happens. */
  function Seen(st: Reader, rec: Record): Reader { st.(window := st.window + {rec.number}) }

  /** A record of another epoch, an old or repeated one and one that does not open
      are passed over, as if they had not come. */
  lemma PassedOver(st: Reader, rec: Record, maxLen: nat)
    requires |st.slots| == N && forall plain :: !Arrives(st, rec, plain)
    ensures OpenHandshake(st, rec, maxLen) == (st, Discard) && OpenRecord(st, rec) == (st, Discard, [])
  {
    if rec.body.Sealed? { assert !Arrives(st, rec, rec.body.plain); }
    assert StaleTest(st.window, rec.number) <==> rec.number in st.window || exists n | n in st.window :: rec.number + 64 <= n;
  }

  lemma Opens(st: Reader, rec: Record, plain: bytes)
    requires Arrives(st, rec, plain)
    ensures OpenRecord(st, rec) ==
            if |plain| > 16384 then (st, Error(RecordOverflow), [])
            else (Seen(st, rec), if rec.typ == 21 then Alerted else Success, if rec.typ == 21 then [] else plain)
  {
    assert !StaleTest(st.window, rec.number);
  }

  /** What is too long, is an alert, is application data or has a type of its own
      never reaches the messages. */
  lemma NotForTheHandshake(st: Reader, rec: Record, plain: bytes, maxLen: nat)
    requires |st.slots| == N && Arrives(st, rec, plain)
    requires |plain| > 16384 || rec.typ !in {20, 22}
    ensures OpenHandshake(st, rec, maxLen) ==
            if |plain| > 16384 then (st, Error(RecordOverflow))
            else (Seen(st, rec),
                  if rec.typ == 21 then Alerted
                  else if rec.typ == 23 && st.gen > 0 then Discard
                  else Error(UnexpectedMessage))
  {
    Opens(st, rec, plain);
    hide OpenRecord;
  }

  /** A ChangeCipherSpec succeeds, and is remembered, if and only if no read keys
      were installed yet and its body is the one byte 1; it never touches the
      messages. */
  lemma CcsExact(st: Reader, rec: Record, plain: bytes, maxLen: nat)
    requires |st.slots| == N && Arrives(st, rec, plain) && |plain| <= 16384 && rec.typ == 20
    ensures var (st', status) := OpenHandshake(st, rec, maxLen);
            && (status == Success <==> st.gen == 0 && plain == [1])
            && st' == Seen(st, rec).(ccs := st.ccs || status == Success)
            && (status != Success ==> status == Error(if st.gen > 0 then UnexpectedMessage else IllegalParameter))
  {
    Opens(st, rec, plain);
    hide OpenRecord;
  }

  /** A handshake record touches nothing but the messages, and fails with the
      alert of the first fragment that is at fault. */
  lemma HandshakeExact(st: Reader, rec: Record, plain: bytes, maxLen: nat)
    requires |st.slots| == N && Arrives(st, rec, plain) && |plain| <= 16384 && rec.typ == 22
    ensures var (st', status) := OpenHandshake(st, rec, maxLen);
            var (f, alert) := Fragments(Seen(st, rec), plain, maxLen);
            && st' == f && st' == Seen(st, rec).(slots := st'.slots)
            && status == (if alert.Some? then Error(alert.value) else Success)
  {
    Opens(st, rec, plain);
    SlotsOnly(Seen(st, rec), plain, maxLen);
    hide OpenRecord, Fragments;
  }

  lemma {:induction false} SlotsOnly(st: Reader, s: bytes, maxLen: nat)
    requires |st.slots| == N
    ensures var st' := Fragments(st, s, maxLen).0; st' == st.(slots := st'.slots)
    decreases |s|
  {
    if s != [] {
      match ParseFragment(s) {
        case Fail =>
        case Ok((h, body), rest) =>
          var (st', alert) := Accept(st, h, body, maxLen);
          assert st' == st.(slots := st'.slots);
          hide Accept;
          if alert.None? { SlotsOnly(st', rest, maxLen); }
      }
    }
  }

  // ---------- dtls1_open_change_cipher_spec ----------

  /** It succeeds if and only if a ChangeCipherSpec came before, unused, or is the
      one that comes now; then none is left.  A message meanwhile is taken in, and
      the caller told to go on. */
  lemma TakeCcs(st: Reader, rec: Record, plain: bytes, maxLen: nat)
    requires |st.slots| == N && Arrives(st, rec, plain) && |plain| <= 16384
    ensures var (st', status) := OpenChangeCipherSpec(st, rec, maxLen);
            && (status == Success <==> st.ccs || (rec.typ == 20 && st.gen == 0 && plain == [1]))
            && !st'.ccs
            && (st.ccs ==> st' == st.(ccs := false))
            && (!st.ccs && status == Success ==> st' == Seen(st, rec))
            && (!st.ccs && rec.typ == 22 ==>
                  && st' == OpenHandshake(st, rec, maxLen).0
                  && status == (if OpenHandshake(st, rec, maxLen).1 == Success then Discard else OpenHandshake(st, rec, maxLen).1))
  {
    if rec.typ == 20 { CcsExact(st, rec, plain, maxLen); }
    else if rec.typ == 22 { HandshakeExact(st, rec, plain, maxLen); }
    else { NotForTheHandshake(st, rec, plain, maxLen); }
    hide OpenHandshake, Arrives, Fragments;
  }

  // ---------- Fragments ----------

  /** The fragment lies within its message, and that is not too long. */
  predicate WithinMessage(h: Header, maxLen: nat) {
    h.fragOff + h.fragLen <= h.msgLen <= maxLen
  }

  /** The fragments that end the connection, and how: one that reaches over its
      message, or of a message that is too long; under the first keys any but
      the next message's; the one exactly seven ahead, for which there is no room;
      and one that disagrees with what has come of its message. */
  function Fault(st: Reader, h: Header, maxLen: nat): Option<Alert>
    requires |st.slots| == N
  {
    var d := h.seqNum - st.readSeq;
    if !WithinMessage(h, maxLen) then Some(IllegalParameter)
    else if st.gen % 0x1_0000 == 1 && d != 0 then Some(UnexpectedMessage)
    else if d == 7 then Some(InternalError)
    else if 0 <= d < 7 && st.slots[h.seqNum % 7].Some?
            && (st.slots[h.seqNum % 7].value.typ != h.typ || |st.slots[h.seqNum % 7].value.body| != h.msgLen) then
      Some(IllegalParameter)
    else None
  }

  /** Body byte x once the fragment has been put where it belongs. */
  function ByteAfter(was: Option<Partial>, h: Header, body: bytes, x: nat): Option<byte>
    requires |body| == h.fragLen && (was.Some? ==> x < |was.value.body|)
  {
    if was.Some? && Complete(was.value) then was.value.body[x]
    else if h.fragOff <= x < h.fragOff + h.fragLen then Some(body[x - h.fragOff])
    else if was.Some? then was.value.body[x] else None
  }

  /** A fragment fails exactly as twas.  Otherwise one of the next seven messages
      has its bytes now, and one outside them changes nothing. */
  lemma FragmentExact(st: Reader, h: Header, body: bytes, maxLen: nat)
    requires |st.slots| == N && |body| == h.fragLen
    ensures var (st', alert) := Accept(st, h, body, maxLen);
            var (d, q) := (h.seqNum - st.readSeq, h.seqNum % 7);
            && alert == Fault(st, h, maxLen)
            && (alert.Some? || d < 0 || d > 7 ==> st' == st)
            && (alert.None? && 0 <= d < 7 ==>
                  match st'.slots[q]
                  case None => false
                  case Some(p) =>
                    && st' == st.(slots := st.slots[q := Some(p)]) && p.typ == h.typ && |p.body| == h.msgLen
                    && (st.slots[q].None? ==> p.seqNum == h.seqNum)
                    && forall x | 0 <= x < h.msgLen :: p.body[x] == ByteAfter(st.slots[q], h, body, x))
  {}

  // ---------- Read keys ----------

  /** Read keys change if and only if every message that has begun to arrive is
      the one being handled; numbers and the ChangeCipherSpec start anew. */
  lemma KeysExact(st: Reader)
    requires |st.slots| == N
    ensures var r := SetReadState(st);
            && (r.Some? <==> forall i | 0 <= i < 7 && st.slots[i].Some? :: st.hasMessage && i == st.readSeq % 7)
            && (r.Some? ==> r.value == Reader(st.readSeq, st.slots, st.hasMessage, st.gen + 1, {}, false))
  {}
}
