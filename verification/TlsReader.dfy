/** Reassembling TLS handshake messages from record payloads, whatever way they
    were split. */
module TlsReader {
  import opened Bytes

  const MSG_HEADER := 4

  datatype Alert = InternalError | IllegalParameter

  /** The first message of the buffer, or how many bytes it needs. */
  datatype Parse = Need(n: nat) | Whole(typ: byte, body: bytes, raw: bytes)

  /** hs_buf, which may be absent, and has_message. */
  datatype Reader = Reader(buf: Option<bytes>, hasMessage: bool)

  function Start(): Reader { Reader(None, false) }

  function Held(r: Reader): bytes {
    if r.buf.Some? then r.buf.value else []
  }

  /** parse_message. */
  function ParseMessage(r: Reader): (p: Parse)
    ensures p.Whole? ==> r.buf.Some? && MSG_HEADER <= |p.raw| <= |r.buf.value| && p.raw == r.buf.value[..|p.raw|]
  {
    match r.buf
    case None => Need(MSG_HEADER)
    case Some(s) =>
      match GetUint(s, 1)
      case Fail => Need(MSG_HEADER)
      case Ok(typ, s1) =>
        PutGet(s, 1);
        assert Limit(1) == 256;
        match GetUint(s1, 3)
        case Fail => Need(MSG_HEADER)
        case Ok(len, s2) =>
          match GetBytes(s2, len)
          case Fail => Need(MSG_HEADER + len)
          case Ok(body, rest) => Whole(typ, body, s[..MSG_HEADER + len])
  }

  /** tls_append_handshake_data. */
  function Append(r: Reader, data: bytes): Reader {
    r.(buf := Some(Held(r) + data))
  }

  /** tls_get_message. */
  function Get(r: Reader): (Reader, Parse) {
    var p := ParseMessage(r);
    (if p.Whole? then r.(hasMessage := true) else r, p)
  }

  /** tls_next_message; only called with a message there. */
  function Next(r: Reader, inInit: bool): Reader
    requires ParseMessage(r).Whole?
  {
    var rest := r.buf.value[|ParseMessage(r).raw|..];
    Reader(if !inInit && rest == [] then None else Some(rest), false)
  }

  /** tls_has_unprocessed_handshake_data. */
  predicate HasUnprocessed(r: Reader) {
    var p := ParseMessage(r);
    |Held(r)| > if r.hasMessage && p.Whole? then |p.raw| else 0
  }

  /** tls_can_accept_handshake_data. */
  function CanAccept(r: Reader, maxLen: nat): Option<Alert> {
    match ParseMessage(r)
    case Whole(_, _, _) => Some(InternalError)
    case Need(n) => if n > MSG_HEADER + maxLen then Some(IllegalParameter) else None
  }

  /** Before a message was asked for, anything held is unprocessed; once it was
      shown, what is behind it; once it was taken, what is left. */
  lemma UnprocessedExact(r: Reader, data: bytes, inInit: bool)
    ensures !HasUnprocessed(Start()) && !Start().hasMessage
    ensures !r.hasMessage ==> (HasUnprocessed(r) <==> Held(r) != [])
    ensures var (r', p) := Get(r);
            && (p.Whole? ==> r'.hasMessage && (HasUnprocessed(r') <==> |Held(r)| > |p.raw|))
            && (!p.Whole? ==> r' == r)
    ensures ParseMessage(r).Whole? ==> var n := Next(r, inInit); !n.hasMessage && (HasUnprocessed(n) <==> Held(n) != [])
    ensures Append(r, data).hasMessage == r.hasMessage
  {}

  // ---------- Unique reading ----------

  /** What tls_init_message and tls_finish_message build. */
  function Message(typ: byte, body: bytes): bytes {
    [typ] + PutPrefixed(body, 3)
  }

  predicate IsMessage(m: bytes) {
    exists len | 0 <= len < |m| :: WellFormed(m, len)
  }

  predicate WellFormed(m: bytes, len: nat) {
    len < Limit(3) && |m| == MSG_HEADER + len && m[1..MSG_HEADER] == Put(len, 3)
  }

  lemma ParsePrefix(s: bytes, typ: byte, len: nat, rest: bytes)
    requires s == [typ] + (Put(len, 3) + rest) && len < Limit(3)
    ensures ParseMessage(Reader(Some(s), false)) ==
            if |rest| < len then Need(MSG_HEADER + len) else Whole(typ, rest[..len], s[..MSG_HEADER + len])
  {
    assert Put(typ, 1) == [typ];
    assert Limit(1) == 256;
    GetPut(typ, 1, Put(len, 3) + rest);
    GetPut(len, 3, rest);
  }

  /** A buffer that is the beginning of a message and more: either it holds the
      whole message, and that is what is read, or it does not, and it says so. */
  lemma ReadsFirst(r: Reader, m: bytes, rest: bytes)
    requires r.buf.Some? && r.buf.value <= m + rest && IsMessage(m)
    ensures match ParseMessage(r)
            case Need(n) => |r.buf.value| < |m|
            case Whole(typ, body, raw) => raw == m
  {
    var s := r.buf.value;
    var len: nat :| 0 <= len < |m| && WellFormed(m, len);
    var all := m + rest;
    if |s| >= MSG_HEADER {
      assert s[1..MSG_HEADER] == all[1..MSG_HEADER] == m[1..MSG_HEADER];
      assert s == [s[0]] + (Put(len, 3) + s[MSG_HEADER..]);
      ParsePrefix(s, s[0], len, s[MSG_HEADER..]);
      if |s| >= |m| { assert s[..|m|] == m; }
    }
  }

  /** Some message is held whole. */
  ghost predicate HoldsMessage(held: bytes) {
    exists m :: IsMessage(m) && m <= held
  }

  /** What is held begins a longer message of a body within the limit. */
  ghost predicate MayGoOn(held: bytes, maxLen: nat) {
    exists m :: IsMessage(m) && held < m && |m| <= MSG_HEADER + maxLen
  }

  /** With the four bytes of a header the length is known. */
  lemma HeaderRead(r: Reader) returns (len: nat)
    requires |Held(r)| >= MSG_HEADER
    ensures len < Limit(3) && Held(r)[1..MSG_HEADER] == Put(len, 3)
    ensures match ParseMessage(r)
            case Need(n) => n == MSG_HEADER + len > |Held(r)|
            case Whole(_, _, raw) => |raw| == MSG_HEADER + len
  {
    var s := Held(r);
    PutVal(s[1..MSG_HEADER]);
    len := Val(s[1..MSG_HEADER]);
    assert s == [s[0]] + (Put(len, 3) + s[MSG_HEADER..]);
    ParsePrefix(s, s[0], len, s[MSG_HEADER..]);
  }

  /** What parse_message finds is the one message that what is held begins with,
      and it finds one if there is one. */
  lemma ParseMeans(r: Reader)
    ensures match ParseMessage(r)
            case Whole(_, _, raw) => IsMessage(raw) && raw <= Held(r)
            case Need(_) => !HoldsMessage(Held(r))
  {
    match ParseMessage(r) {
      case Whole(_, _, raw) =>
        var len := HeaderRead(r);
        assert raw[1..MSG_HEADER] == Held(r)[1..MSG_HEADER];
        assert WellFormed(raw, len);
      case Need(_) =>
        forall m | IsMessage(m) ensures !(m <= Held(r)) {
          if m <= Held(r) { ReadsFirst(r, m, Held(r)[|m|..]); }
        }
    }
  }

  /** Nothing else is a message at the front of what is held. */
  lemma OnlyFirst(r: Reader, m: bytes)
    requires IsMessage(m) && m <= Held(r)
    ensures ParseMessage(r).Whole? && ParseMessage(r).raw == m
  {
    ReadsFirst(r, m, Held(r)[|m|..]);
  }

  lemma CanAcceptMeans(r: Reader, maxLen: nat)
    ensures CanAccept(r, maxLen) == Some(InternalError) <==> HoldsMessage(Held(r))
    ensures |Held(r)| >= MSG_HEADER ==> (CanAccept(r, maxLen) == None <==> MayGoOn(Held(r), maxLen))
    ensures |Held(r)| < MSG_HEADER ==> CanAccept(r, maxLen) == None
  {
    ParseMeans(r);
    var s := Held(r);
    if |s| >= MSG_HEADER {
      var len := HeaderRead(r);
      hide ParseMessage;
      forall m | IsMessage(m) && s < m ensures |m| == MSG_HEADER + len && CanAccept(r, maxLen) != Some(InternalError) {
        SameLength(s, m, len);
      }
      if MSG_HEADER + len > |s| {
        var m := s + seq(MSG_HEADER + len - |s|, _ => 0);
        assert m[1..MSG_HEADER] == s[1..MSG_HEADER];
        assert WellFormed(m, len);
        assert IsMessage(m) && s < m;
      }
    } else {
      assert forall m | IsMessage(m) :: |m| >= MSG_HEADER;
    }
  }

  lemma SameLength(s: bytes, m: bytes, len: nat)
    requires |s| >= MSG_HEADER && s[1..MSG_HEADER] == Put(len, 3) && len < Limit(3) && IsMessage(m) && s <= m
    ensures |m| == MSG_HEADER + len
  {
    var k: nat :| 0 <= k < |m| && WellFormed(m, k);
    assert m[1..MSG_HEADER] == s[1..MSG_HEADER];
    PutInjective(k, len, 3);
  }

  lemma UnprocessedMeans(r: Reader)
    ensures HasUnprocessed(r) <==> Held(r) != [] && !(r.hasMessage && IsMessage(Held(r)))
  {
    ParseMeans(r);
    if IsMessage(Held(r)) { OnlyFirst(r, Held(r)); }
    match ParseMessage(r) {
      case Need(_) =>
      case Whole(_, _, raw) => assert |raw| == |Held(r)| ==> raw == Held(r);
    }
  }

  // ---------- Runs ----------

  datatype Event = Received(data: bytes) | Asked | Took(inInit: bool)

  /** received and delivered are histories. */
  datatype State = State(r: Reader, received: bytes, delivered: seq<bytes>)

  function Step(s: State, e: Event): State {
    match e
    case Received(data) => s.(r := Append(s.r, data), received := s.received + data)
    case Asked => s.(r := Get(s.r).0)
    case Took(inInit) =>
      var p := ParseMessage(s.r);
      if p.Whole? then s.(r := Next(s.r, inInit), delivered := s.delivered + [p.raw]) else s
  }

  function Run(s: State, es: seq<Event>): State
    decreases |es|
  {
    if es == [] then s else Run(Step(s, es[0]), es[1..])
  }

  predicate Accounted(s: State) {
    Flatten(s.delivered) + Held(s.r) == s.received
  }

  lemma StepAccounts(s: State, e: Event)
    requires Accounted(s)
    ensures Accounted(Step(s, e))
  {
    hide ParseMessage, Flatten;
    match e {
      case Received(data) => assert Flatten(s.delivered) + (Held(s.r) + data) == s.received + data;
      case Asked =>
      case Took(inInit) =>
        match ParseMessage(s.r) {
          case Need(_) =>
          case Whole(_, _, raw) =>
            FlattenSnoc(s.delivered, raw);
            assert s.r.buf.value == raw + s.r.buf.value[|raw|..];
        }
    }
  }

  /** Nothing received is lost: it has been delivered or is still held. */
  lemma {:induction false} RunAccounts(s: State, es: seq<Event>)
    requires Accounted(s)
    ensures Accounted(Run(s, es))
    decreases |es|
  {
    if es != [] {
      StepAccounts(s, es[0]);
      RunAccounts(Step(s, es[0]), es[1..]);
    }
  }

  predicate AllMessages(ms: seq<bytes>) {
    forall i | 0 <= i < |ms| :: IsMessage(ms[i])
  }

  lemma FlattenSplit(ms: seq<bytes>, k: nat)
    requires k < |ms|
    ensures Flatten(ms) == Flatten(ms[..k]) + (ms[k] + Flatten(ms[k + 1..]))
  {
    assert ms == ms[..k] + ms[k..];
    FlattenAppend(ms[..k], ms[k..]);
  }

  lemma CancelPrefix(a: bytes, b: bytes, c: bytes)
    requires a + b <= a + c
    ensures b <= c
  {
    assert (a + b)[|a|..] == b && (a + c)[|a|..] == c;
    assert (a + c)[..|a + b|] == a + b;
    assert c[..|b|] == (a + c)[|a|..|a| + |b|];
  }

  /** A reader that has delivered the first messages of a stream delivers the next
      one next. */
  lemma StepDelivers(s: State, e: Event, ms: seq<bytes>)
    requires Accounted(s) && AllMessages(ms) && Step(s, e).received <= Flatten(ms)
    requires s.delivered <= ms
    ensures Step(s, e).delivered <= ms
  {
    hide ParseMessage, IsMessage, Flatten;
    var k := |s.delivered|;
    assert ms[..k] == s.delivered;
    assert k == |ms| ==> ms[..k] == ms;
    if e.Took? && ParseMessage(s.r).Whole? {
      var held := Held(s.r);
      if k == |ms| {
        CancelPrefix(Flatten(ms), held, []);
      } else {
        FlattenSplit(ms, k);
        CancelPrefix(Flatten(ms[..k]), held, ms[k] + Flatten(ms[k + 1..]));
        ReadsFirst(s.r, ms[k], Flatten(ms[k + 1..]));
      }
    }
  }

  lemma {:induction false} RunDelivers(s: State, es: seq<Event>, ms: seq<bytes>)
    requires Accounted(s) && AllMessages(ms) && Run(s, es).received <= Flatten(ms)
    requires s.delivered <= ms
    ensures Run(s, es).delivered <= ms
    decreases |es|
  {
    if es != [] {
      var s1 := Step(s, es[0]);
      StepAccounts(s, es[0]);
      ReceivedGrows(s1, es[1..]);
      StepDelivers(s, es[0], ms);
      RunDelivers(s1, es[1..], ms);
    }
  }

  lemma {:induction false} ReceivedGrows(s: State, es: seq<Event>)
    ensures s.received <= Run(s, es).received
    decreases |es|
  {
    if es != [] { ReceivedGrows(Step(s, es[0]), es[1..]); }
  }

  /** However the bytes of a stream of messages are cut into payloads, and however
      asking and taking are interleaved with their arrival, the messages delivered
      are the first of the stream, whole and in order; and once all has arrived
      and no message is left to take, they are all of it. */
  lemma DeliversTheStream(es: seq<Event>, ms: seq<bytes>)
    requires AllMessages(ms) && Run(State(Start(), [], []), es).received <= Flatten(ms)
    ensures var s := Run(State(Start(), [], []), es);
            && s.delivered <= ms
            && (s.received == Flatten(ms) && ParseMessage(s.r).Need? ==> s.delivered == ms && Held(s.r) == [])
  {
    var s0 := State(Start(), [], []);
    RunAccounts(s0, es);
    RunDelivers(s0, es, ms);
    var s := Run(s0, es);
    var k := |s.delivered|;
    hide ParseMessage, IsMessage, Flatten;
    assert ms[..k] == s.delivered;
    if s.received == Flatten(ms) && ParseMessage(s.r).Need? {
      if k < |ms| {
        FlattenSplit(ms, k);
        var rest := ms[k] + Flatten(ms[k + 1..]);
        CancelEqual(Flatten(ms[..k]), Held(s.r), rest);
        MessageNotEmpty(ms[k]);
        ReadsFirst(s.r, ms[k], Flatten(ms[k + 1..]));
      } else {
        assert ms[..k] == ms;
        CancelEqual(Flatten(ms), Held(s.r), []);
      }
    }
  }

  lemma MessageNotEmpty(m: bytes)
    requires IsMessage(m)
    ensures m != []
  {}

  lemma CancelEqual(a: bytes, b: bytes, c: bytes)
    requires a + b == a + c || a + b == a
    ensures a + b == a + c ==> b == c
    ensures a + b == a ==> b == []
  {
    assert (a + b)[|a|..] == b && (a + c)[|a|..] == c;
  }

  // ---------- In place ----------

  class TlsReadState {
    var hsBuf: bytes
    var hasBuf: bool
    var hasMessage: bool

    ghost function View(): Reader
      reads this
    {
      Reader(if hasBuf then Some(hsBuf) else None, hasMessage)
    }

    constructor ()
      ensures View() == Start()
    {
      hsBuf, hasBuf, hasMessage := [], false, false;
    }

    method Parsed() returns (p: Parse)
      ensures p == ParseMessage(View())
    {
      return ParseMessage(Reader(if hasBuf then Some(hsBuf) else None, hasMessage));
    }

    /** The bytes held grow by the payload, behind what was there. */
    method AppendHandshakeData(data: bytes)
      modifies this`hsBuf, this`hasBuf
      ensures View() == Append(old(View()), data)
      ensures Held(View()) == old(Held(View())) + data && hasMessage == old(hasMessage)
    {
      if !hasBuf {
        hsBuf, hasBuf := [], true;
      }
      hsBuf := hsBuf + data;
    }

    /** The message that what is held begins with, if it begins with one; nothing
        is taken. */
    method GetMessage() returns (p: Parse)
      modifies this`hasMessage
      ensures (View(), p) == Get(old(View()))
      ensures Held(View()) == old(Held(View()))
      ensures match p
              case Whole(_, _, raw) => hasMessage && IsMessage(raw) && raw <= Held(View())
              case Need(_) => !HoldsMessage(Held(View())) && hasMessage == old(hasMessage)
    {
      ParseMeans(View());
      p := Parsed();
      if p.Whole? && !hasMessage {
        hasMessage := true;
      }
    }

    /** Takes exactly the message that is at the front. */
    method NextMessage(inInit: bool)
      requires ParseMessage(View()).Whole?
      modifies this
      ensures View() == Next(old(View()), inInit)
      ensures forall m | IsMessage(m) && m <= old(Held(View())) :: old(Held(View())) == m + Held(View())
      ensures !hasMessage && (!hasBuf <==> !inInit && Held(View()) == [])
    {
      ghost var r := View();
      var p := Parsed();
      hsBuf := hsBuf[|p.raw|..];
      hasMessage := false;
      if !inInit && hsBuf == [] {
        hasBuf := false;
      }
      forall m | IsMessage(m) && m <= Held(r) ensures Held(r) == m + Held(View()) { OnlyFirst(r, m); }
    }

    /** Whether more is held than the one message being read. */
    method Unprocessed() returns (b: bool)
      ensures b == HasUnprocessed(View())
      ensures b <==> Held(View()) != [] && !(hasMessage && IsMessage(Held(View())))
    {
      UnprocessedMeans(View());
      var msgLen := 0;
      if hasMessage {
        var p := Parsed();
        if p.Whole? {
          msgLen := |p.raw|;
        }
      }
      return hasBuf && |hsBuf| > msgLen;
    }

    /** No more data is accepted while a message is held whole, nor for one that
        is to become too long. */
    method CanAcceptHandshakeData(maxLen: nat) returns (alert: Option<Alert>)
      ensures alert == CanAccept(View(), maxLen)
      ensures alert == Some(InternalError) <==> HoldsMessage(Held(View()))
      ensures |Held(View())| >= MSG_HEADER ==> (alert == None <==> MayGoOn(Held(View()), maxLen))
      ensures |Held(View())| < MSG_HEADER ==> alert == None
    {
      CanAcceptMeans(View(), maxLen);
      var p := Parsed();
      if p.Whole? {
        return Some(InternalError);
      }
      return if p.n > MSG_HEADER + maxLen then Some(IllegalParameter) else None;
    }
  }
}
