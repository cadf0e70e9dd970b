/** Receiving DTLS handshake messages: epoch and replay checks, the ring of
    partly received messages, in-order delivery and read key changes.  This
    module gives each step as a function on values; DtlsReadState carries them
    out in place. */
module DtlsReader {
  import opened Bytes
  import opened Reassembly
  import opened ReplayWindow
  import opened DtlsWire

  const MAX_PLAIN := 16384

  datatype Alert = InternalError | DecodeError | IllegalParameter | UnexpectedMessage | RecordOverflow

  datatype Status = Success | Discard | Alerted | Error(alert: Alert)

  datatype Reader = Reader(
    readSeq: nat,
    slots: seq<Option<Partial>>,
    hasMessage: bool,
    gen: nat,
    window: set<nat>,
    ccs: bool)

  function Start(): Reader {
    Reader(0, seq(N, _ => None), false, 0, {}, false)
  }

  predicate IsNullCipher(gen: nat) { gen == 0 }

  function Fresh(h: Header, gen: nat): Partial {
    Nothing(h.typ, h.seqNum, h.msgLen, gen)
  }

  /** The length and epoch checks that end the connection. */
  function HeaderFault(st: Reader, h: Header, maxLen: nat): Option<Alert> {
    if h.fragOff > h.msgLen || h.fragOff + h.fragLen > h.msgLen || h.msgLen > maxLen then
      Some(IllegalParameter)
    else if Epoch(st.gen) == 1 && h.seqNum != st.readSeq then
      Some(UnexpectedMessage)
    else
      None
  }

  predicate Ignored(st: Reader, h: Header) {
    h.seqNum < st.readSeq || h.seqNum > st.readSeq + N
  }

  /** The slot a fragment goes to, created when it is the first of its message. */
  function Slot(st: Reader, h: Header): (r: (Option<Partial>, Alert))
    requires |st.slots| == N
  {
    if h.seqNum < st.readSeq || h.seqNum - st.readSeq >= N then
      (None, InternalError)
    else
      match st.slots[h.seqNum % N]
      case None => (Some(Fresh(h, st.gen)), InternalError)
      case Some(p) =>
        if p.typ != h.typ || |p.body| != h.msgLen then (None, IllegalParameter) else (Some(p), InternalError)
  }

  /** One fragment: the next state, and the alert when the connection fails. */
  function Accept(st: Reader, h: Header, body: bytes, maxLen: nat): (r: (Reader, Option<Alert>))
    requires |st.slots| == N && |body| == h.fragLen
    ensures |r.0.slots| == N
  {
    var fault := HeaderFault(st, h, maxLen);
    if fault.Some? then (st, fault)
    else if Ignored(st, h) then (st, None)
    else
      match Slot(st, h)
      case (None, alert) => (st, Some(alert))
      case (Some(p), _) =>
        var p' := if Complete(p) then p else Merge(p, h.fragOff, body, st.gen);
        (st.(slots := st.slots[h.seqNum % N := Some(p')]), None)
  }

  /** A record's payload: a run of fragments. */
  function Fragments(st: Reader, s: bytes, maxLen: nat): (r: (Reader, Option<Alert>))
    requires |st.slots| == N
    ensures |r.0.slots| == N
    decreases |s|
  {
    if s == [] then (st, None)
    else
      match ParseFragment(s)
      case Fail => (st, Some(DecodeError))
      case Ok((h, body), rest) =>
        match Accept(st, h, body, maxLen)
        case (st', Some(alert)) => (st', Some(alert))
        case (st', None) => Fragments(st', rest, maxLen)
  }

  /** The record layer's verdict on one record. */
  function OpenRecord(st: Reader, rec: Record): (r: (Reader, Status, bytes)) {
    if EpochOf(rec.number) != Epoch(st.gen) || StaleTest(st.window, rec.number) then (st, Discard, [])
    else
      match Open(st.gen, rec.body)
      case None => (st, Discard, [])
      case Some(plain) =>
        if |plain| > MAX_PLAIN then (st, Error(RecordOverflow), [])
        else
          var st' := st.(window := st.window + {rec.number});
          if rec.typ == ALERT then (st', Alerted, []) else (st', Success, plain)
  }

  /** Stale, in a form that can be evaluated. */
  predicate StaleTest(recorded: set<nat>, n: nat)
    ensures StaleTest(recorded, n) == Stale(recorded, n)
  {
    n in recorded || exists r | r in recorded :: n + WINDOW <= r
  }

  function OpenHandshake(st: Reader, rec: Record, maxLen: nat): (r: (Reader, Status))
    requires |st.slots| == N
    ensures |r.0.slots| == N
  {
    match OpenRecord(st, rec)
    case (st', status, plain) =>
      if status != Success then (st', status)
      else if rec.typ == APPLICATION_DATA then
        (st', if IsNullCipher(st.gen) then Error(UnexpectedMessage) else Discard)
      else if rec.typ == CHANGE_CIPHER_SPEC then
        if !IsNullCipher(st.gen) then (st', Error(UnexpectedMessage))
        else if plain != [CCS_BYTE] then (st', Error(IllegalParameter))
        else (st'.(ccs := true), Success)
      else if rec.typ == HANDSHAKE then
        match Fragments(st', plain, maxLen)
        case (st'', Some(alert)) => (st'', Error(alert))
        case (st'', None) => (st'', Success)
      else (st', Error(UnexpectedMessage))
  }

  /** dtls1_open_change_cipher_spec: the flag, set now or before, is used up. */
  function OpenChangeCipherSpec(st: Reader, rec: Record, maxLen: nat): (r: (Reader, Status))
    requires |st.slots| == N
    ensures |r.0.slots| == N
  {
    match if st.ccs then (st, Success) else OpenHandshake(st, rec, maxLen)
    case (st', status) =>
      if status != Success then (st', status)
      else if st'.ccs then (st'.(ccs := false), Success)
      else (st', Discard)
  }

  predicate CurrentComplete(st: Reader)
    requires |st.slots| == N
  {
    var p := st.slots[st.readSeq % N];
    p.Some? && Complete(p.value)
  }

  function GetMessage(st: Reader): (r: (Reader, Option<bytes>))
    requires |st.slots| == N
  {
    if !CurrentComplete(st) then (st, None)
    else (st.(hasMessage := true), Some(Raw(st.slots[st.readSeq % N].value)))
  }

  function NextMessage(st: Reader): Reader
    requires |st.slots| == N && st.hasMessage && CurrentComplete(st)
  {
    st.(slots := st.slots[st.readSeq % N := None], readSeq := (st.readSeq + 1) % SEQ16, hasMessage := false)
  }

  /** Some message other than the one being handled has begun to arrive. */
  predicate HasUnprocessed(st: Reader)
    requires |st.slots| == N
  {
    exists i | 0 <= i < N :: !(st.hasMessage && i == st.readSeq % N) && st.slots[i].Some?
  }

  /** A read key change; None when unprocessed handshake data forbids it. */
  function SetReadState(st: Reader): Option<Reader>
    requires |st.slots| == N
  {
    if HasUnprocessed(st) then None
    else Some(st.(gen := st.gen + 1, window := {}, ccs := false))
  }

  // ---------- What every step keeps ----------

  /** The ring invariant: slot i holds a message numbered i modulo N within the
      N messages from readSeq on, and only records of one read generation
      contributed to it. */
  ghost predicate RingOk(st: Reader) {
    && |st.slots| == N
    && st.readSeq < SEQ16
    && (forall i | 0 <= i < N && st.slots[i].Some? :: SlotOk(st, i, st.slots[i].value))
    && (st.hasMessage ==> CurrentComplete(st))
  }

  ghost predicate SlotOk(st: Reader, i: nat, p: Partial) {
    && p.seqNum % N == i
    && st.readSeq <= p.seqNum < st.readSeq + N
    && p.seqNum < SEQ16
    && (exists g :: p.gens == {g})
    && (!Complete(p) ==> p.gens == {st.gen})
  }

  lemma StartOk()
    ensures RingOk(Start())
  {}

  lemma AcceptKeepsRing(st: Reader, h: Header, body: bytes, maxLen: nat)
    requires RingOk(st) && |body| == h.fragLen && FitsHeader(h)
    ensures RingOk(Accept(st, h, body, maxLen).0)
    ensures Accept(st, h, body, maxLen).0 == st.(slots := Accept(st, h, body, maxLen).0.slots)
  {
    var (st', alert) := Accept(st, h, body, maxLen);
    if HeaderFault(st, h, maxLen).None? && !Ignored(st, h) && Slot(st, h).0.Some? {
      var k := h.seqNum % N;
      var p := Slot(st, h).0.value;
      Limits();
      SameResidue(st, h.seqNum);
      assert p.seqNum == h.seqNum;
      assert st'.slots[k].value.gens == p.gens || st'.slots[k].value.gens == {st.gen};
      forall i | 0 <= i < N && st'.slots[i].Some? ensures SlotOk(st', i, st'.slots[i].value) {
        if i != k { assert SlotOk(st, i, st.slots[i].value); }
      }
      if st.hasMessage && st.readSeq % N == k {
        assert Complete(p);
      }
    }
  }

  /** The assertion in dtls1_get_incoming_message: an occupied slot already holds
      the message the fragment belongs to. */
  lemma SameResidue(st: Reader, s: nat)
    requires RingOk(st) && st.readSeq <= s < st.readSeq + N
    ensures st.slots[s % N].Some? ==> st.slots[s % N].value.seqNum == s
  {
    if st.slots[s % N].Some? {
      var p := st.slots[s % N].value;
      assert SlotOk(st, s % N, p);
      assert p.seqNum % N == s % N;
    }
  }

  lemma {:induction false} FragmentsKeepRing(st: Reader, s: bytes, maxLen: nat)
    requires RingOk(st)
    ensures var st' := Fragments(st, s, maxLen).0; RingOk(st') && st' == st.(slots := st'.slots)
    decreases |s|
  {
    if s != [] {
      var f := ParseFragment(s);
      if f.Ok? {
        AcceptKeepsRing(st, f.value.0, f.value.1, maxLen);
        var (st', alert) := Accept(st, f.value.0, f.value.1, maxLen);
        if alert.None? { FragmentsKeepRing(st', f.rest, maxLen); }
      }
    }
  }

  /** A record with one fragment in it. */
  lemma OneFragment(st: Reader, plain: bytes, h: Header, body: bytes, maxLen: nat)
    requires |st.slots| == N && ParseFragment(plain) == Ok((h, body), [])
    ensures Fragments(st, plain, maxLen) == Accept(st, h, body, maxLen)
  {
    hide Accept;
    var (st', alert) := Accept(st, h, body, maxLen);
    if alert.None? { assert Fragments(st', [], maxLen) == (st', None); }
  }

  lemma RingIgnores(st: Reader, window: set<nat>, ccs: bool)
    requires RingOk(st)
    ensures RingOk(st.(window := window, ccs := ccs))
  {
    var st' := st.(window := window, ccs := ccs);
    forall i | 0 <= i < N && st'.slots[i].Some? ensures SlotOk(st', i, st'.slots[i].value) {
      assert SlotOk(st, i, st.slots[i].value);
    }
  }

  lemma OpenKeepsRing(st: Reader, rec: Record, maxLen: nat)
    requires RingOk(st)
    ensures RingOk(OpenHandshake(st, rec, maxLen).0)
  {
    var (st', status, plain) := OpenRecord(st, rec);
    RingIgnores(st, st'.window, st'.ccs);
    RingIgnores(st', st'.window, true);
    if status == Success && rec.typ == HANDSHAKE { FragmentsKeepRing(st', plain, maxLen); }
  }

  lemma CcsKeepsRing(st: Reader, rec: Record, maxLen: nat)
    requires RingOk(st)
    ensures RingOk(OpenChangeCipherSpec(st, rec, maxLen).0)
  {
    OpenKeepsRing(st, rec, maxLen);
    var st' := if st.ccs then st else OpenHandshake(st, rec, maxLen).0;
    hide OpenHandshake;
    RingIgnores(st', st'.window, false);
  }

  lemma GetKeepsRing(st: Reader)
    requires RingOk(st)
    ensures RingOk(GetMessage(st).0)
  {
    var st' := GetMessage(st).0;
    forall i | 0 <= i < N && st'.slots[i].Some? ensures SlotOk(st', i, st'.slots[i].value) {
      assert SlotOk(st, i, st.slots[i].value);
    }
  }

  /** Even when the 16-bit message number wraps: the ring is empty by then. */
  lemma NextKeepsRing(st: Reader)
    requires RingOk(st) && st.hasMessage && CurrentComplete(st)
    ensures RingOk(NextMessage(st))
  {
    var st' := NextMessage(st);
    forall i | 0 <= i < N && st'.slots[i].Some? ensures SlotOk(st', i, st'.slots[i].value) {
      assert SlotOk(st, i, st.slots[i].value);
    }
  }

  lemma SetReadStateKeepsRing(st: Reader)
    requires RingOk(st) && SetReadState(st).Some?
    ensures RingOk(SetReadState(st).value)
  {
    var st' := SetReadState(st).value;
    forall i | 0 <= i < N && st'.slots[i].Some? ensures SlotOk(st', i, st'.slots[i].value) {
      assert SlotOk(st, i, st.slots[i].value);
      assert st.hasMessage && i == st.readSeq % N;
    }
  }
}
