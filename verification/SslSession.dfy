/** The printed form of a session and its parser. */
module SslSession {
  import opened Bytes
  import opened Der

  const STRUCTURE_VERSION := 1
  const MAX_ID := 32
  const MAX_SECRET := 48
  const MAX_SID_CTX := 32
  const MAX_HASH := 64
  const SHA256_LEN := 32
  const U16_MAX := 0xffff
  const U32_MAX := 0xffff_ffff
  const U64_LIMIT := 0x1_0000_0000_0000_0000
  const LONG_MAX := 0x7fff_ffff_ffff_ffff

  /** What every session has. */
  datatype Core = Core(version: nat, cipher: nat, id: bytes, secret: bytes, time: nat, timeout: nat)

  /** What is known of the peer. */
  datatype Peer = Peer(certs: seq<bytes>, sha256: Option<bytes>, verifyResult: nat, sct: Option<bytes>,
                       ocsp: Option<bytes>, sigAlg: nat)

  /** What concerns tickets and early data. */
  datatype Tickets = Tickets(ticket: bytes, lifetimeHint: nat, ageAdd: Option<nat>, maxEarly: nat, authTimeout: nat,
                             earlyAlpn: bytes, alps: Option<(bytes, bytes)>)

  datatype Rest = Rest(sidCtx: bytes, psk: Option<bytes>, hash: bytes, ems: bool, group: nat, isServer: bool,
                       isQuic: bool, quicContext: bytes)

  datatype Session = Session(core: Core, peer: Peer, tickets: Tickets, rest: Rest)

  // ---------- Well-formed sessions ----------

  /** The versions ssl_protocol_version_from_wire knows. */
  predicate KnownVersion(v: nat) {
    v in {0x0301, 0x0302, 0x0303, 0x0304, 0xfeff, 0xfefd}
  }

  predicate CoreOk(c: Core, ciphers: set<nat>) {
    && KnownVersion(c.version) && c.cipher in ciphers && c.cipher <= U16_MAX
    && |c.id| <= MAX_ID && |c.secret| <= MAX_SECRET
    && c.time < U64_LIMIT && c.timeout <= U32_MAX
  }

  predicate PeerOk(p: Peer) {
    && (p.certs != [] ==> p.certs[0] != [])
    && (forall i | 1 <= i < |p.certs| :: IsElement(p.certs[i]))
    && (p.sha256.Some? ==> |p.sha256.value| == SHA256_LEN)
    && p.verifyResult <= LONG_MAX && p.sigAlg <= U16_MAX
  }

  predicate TicketsOk(t: Tickets) {
    && t.lifetimeHint <= U32_MAX && t.maxEarly <= U32_MAX && t.authTimeout <= U32_MAX
    && (t.ageAdd.Some? ==> t.ageAdd.value <= U32_MAX)
    && (t.alps.Some? ==> t.earlyAlpn != [])
  }

  predicate RestOk(r: Rest) {
    && |r.sidCtx| <= MAX_SID_CTX && |r.hash| <= MAX_HASH && r.group <= U16_MAX
    && (r.psk.Some? ==> 0 !in r.psk.value)
  }

  predicate WellFormed(s: Session, ciphers: set<nat>) {
    CoreOk(s.core, ciphers) && PeerOk(s.peer) && TicketsOk(s.tickets) && RestOk(s.rest)
  }

  /** What survives: certificates only without their hash, and in a ticket neither
      the session ID nor the ticket. */
  function Kept(s: Session, forTicket: bool): Session {
    Session(if forTicket then s.core.(id := []) else s.core,
            if s.peer.sha256.Some? then s.peer.(certs := []) else s.peer,
            if forTicket then s.tickets.(ticket := []) else s.tickets,
            s.rest)
  }

  // ---------- Printing ----------

  function Head(c: Core, forTicket: bool): bytes {
    Integer(STRUCTURE_VERSION) + (Integer(c.version) + (OctetString(Put(c.cipher, 2)) +
    (OctetString(if forTicket then [] else c.id) + (OctetString(c.secret) +
    (Element(Explicit(1), Integer(c.time)) + Element(Explicit(2), Integer(c.timeout)))))))
  }

  const FIELDS := 24

  /** The tags 3 to 6, 8 to 10, 13 to 19 and 21 to 30. */
  function TagAt(k: nat): Tag
    requires k < FIELDS
  {
    if k < 4 then k + 3 else if k < 7 then k + 4 else if k < 14 then k + 6 else k + 7
  }

  function TagList(): (tags: seq<Tag>)
    ensures |tags| == FIELDS && Ascending(tags)
  {
    seq(FIELDS, k requires 0 <= k < FIELDS => TagAt(k))
  }

  /** A field that is there only when cond holds. */
  function When(cond: bool, body: bytes): Option<bytes> {
    if cond then Some(body) else None
  }

  function OptOctets(x: Option<bytes>): Option<bytes> {
    if x.Some? then Some(OctetString(x.value)) else None
  }

  function PeerField(p: Peer): Option<bytes> {
    if p.certs != [] && p.sha256.None? then Some(p.certs[0]) else None
  }

  function ChainField(p: Peer): Option<bytes> {
    if |p.certs| >= 2 && p.sha256.None? then Some(Flatten(p.certs[1..])) else None
  }

  function AgeField(t: Tickets): Option<bytes> {
    if t.ageAdd.Some? then Some(OctetString(Put(t.ageAdd.value, 4))) else None
  }

  function AlpsField(t: Tickets, local: bool): Option<bytes> {
    if t.alps.Some? then Some(OctetString(if local then t.alps.value.0 else t.alps.value.1)) else None
  }

  /** The optional field with the k-th tag. */
  function FieldAt(s: Session, forTicket: bool, k: nat): Option<bytes>
    requires k < FIELDS
  {
    match k
    case 0 => PeerField(s.peer)
    case 1 => Some(OctetString(s.rest.sidCtx))
    case 2 => When(s.peer.verifyResult != 0, Integer(s.peer.verifyResult))
    case 3 => None
    case 4 => OptOctets(s.rest.psk)
    case 5 => When(s.tickets.lifetimeHint > 0, Integer(s.tickets.lifetimeHint))
    case 6 => When(s.tickets.ticket != [] && !forTicket, OctetString(s.tickets.ticket))
    case 7 => OptOctets(s.peer.sha256)
    case 8 => When(s.rest.hash != [], OctetString(s.rest.hash))
    case 9 => OptOctets(s.peer.sct)
    case 10 => OptOctets(s.peer.ocsp)
    case 11 => When(s.rest.ems, Boolean(true))
    case 12 => When(s.rest.group > 0, Integer(s.rest.group))
    case 13 => ChainField(s.peer)
    case 14 => AgeField(s.tickets)
    case 15 => When(!s.rest.isServer, Boolean(false))
    case 16 => When(s.peer.sigAlg != 0, Integer(s.peer.sigAlg))
    case 17 => When(s.tickets.maxEarly != 0, Integer(s.tickets.maxEarly))
    case 18 => When(s.core.timeout != s.tickets.authTimeout, Integer(s.tickets.authTimeout))
    case 19 => When(s.tickets.earlyAlpn != [], OctetString(s.tickets.earlyAlpn))
    case 20 => When(s.rest.isQuic, Boolean(true))
    case 21 => When(s.rest.quicContext != [], OctetString(s.rest.quicContext))
    case 22 => AlpsField(s.tickets, true)
    case _ => AlpsField(s.tickets, false)
  }

  function Fields(s: Session, forTicket: bool): (f: seq<Option<bytes>>)
    ensures |f| == FIELDS
  {
    seq(FIELDS, k requires 0 <= k < FIELDS => FieldAt(s, forTicket, k))
  }

  function Body(s: Session, forTicket: bool): bytes {
    Head(s.core, forTicket) + EncodeFields(TagList(), Fields(s, forTicket))
  }

  /** SSL_SESSION_to_bytes_full. */
  function Serialize(s: Session, forTicket: bool): bytes {
    Element(SEQUENCE, Body(s, forTicket))
  }

  // ---------- Parsing ----------

  function DecOctets(f: Option<bytes>): Option<bytes> {
    match f
    case None => Some([])
    case Some(b) => ParseOctets(b)
  }

  function DecBounded(f: Option<bytes>, max: nat): Option<bytes> {
    match DecOctets(f)
    case None => None
    case Some(v) => if |v| <= max then Some(v) else None
  }

  function DecUint(f: Option<bytes>, max: nat, default: nat): Option<nat> {
    match f
    case None => Some(default)
    case Some(b) => ParseUint(b, max)
  }

  function DecBool(f: Option<bytes>, default: bool): Option<bool> {
    match f
    case None => Some(default)
    case Some(b) => ParseBool(b)
  }

  /** A buffer that may be absent. */
  function DecBuffer(f: Option<bytes>): Option<Option<bytes>> {
    match f
    case None => Some(None)
    case Some(b) =>
      match ParseOctets(b)
      case None => None
      case Some(v) => Some(Some(v))
  }

  /** A C string: no zero bytes. */
  function DecString(f: Option<bytes>): Option<Option<bytes>> {
    match DecBuffer(f)
    case None => None
    case Some(x) => if x.Some? && 0 in x.value then None else Some(x)
  }

  function DecSha256(f: Option<bytes>): Option<Option<bytes>> {
    match DecBuffer(f)
    case None => None
    case Some(x) => if x.Some? && |x.value| != SHA256_LEN then None else Some(x)
  }

  function DecAge(f: Option<bytes>): Option<Option<nat>> {
    match DecBuffer(f)
    case None => None
    case Some(None) => Some(None)
    case Some(Some(v)) => if |v| == 4 then Some(Some(Val(v))) else None
  }

  /** The leaf and the chain behind it. */
  function DecCerts(peer: Option<bytes>, chain: Option<bytes>): Option<seq<bytes>> {
    if peer == Some([]) || chain == Some([]) || (chain.Some? && peer.None?) then None
    else if peer.None? then Some([])
    else if chain.None? then Some([peer.value])
    else
      match SplitElements(chain.value)
      case None => None
      case Some(xs) => Some([peer.value] + xs)
  }

  function DecPeer(f: seq<Option<bytes>>): Option<Peer>
    requires |f| == |TagList()|
  {
    match (DecCerts(f[0], f[13]), DecUint(f[2], LONG_MAX, 0), DecSha256(f[7]), DecBuffer(f[9]), DecBuffer(f[10]),
           DecUint(f[16], U16_MAX, 0))
    case (Some(certs), Some(verify), Some(sha), Some(sct), Some(ocsp), Some(sig)) => Some(Peer(certs, sha, verify, sct, ocsp, sig))
    case _ => None
  }

  /** Both or neither, and only with an early ALPN. */
  function DecAlps(local: Option<bytes>, peer: Option<bytes>, alpn: bytes): Option<Option<(bytes, bytes)>> {
    match (DecOctets(local), DecOctets(peer))
    case (Some(a), Some(b)) =>
      if local.Some? != peer.Some? || (local.Some? && alpn == []) then None
      else if local.Some? then Some(Some((a, b))) else Some(None)
    case _ => None
  }

  function DecTickets(f: seq<Option<bytes>>, timeout: nat): Option<Tickets>
    requires |f| == |TagList()|
  {
    match (DecUint(f[5], U32_MAX, 0), DecOctets(f[6]), DecAge(f[14]), DecUint(f[17], U32_MAX, 0),
           DecUint(f[18], U32_MAX, timeout), DecOctets(f[19]))
    case (Some(hint), Some(ticket), Some(age), Some(early), Some(auth), Some(alpn)) =>
      (match DecAlps(f[22], f[23], alpn)
       case None => None
       case Some(alps) => Some(Tickets(ticket, hint, age, early, auth, alpn, alps)))
    case _ => None
  }

  function DecRest(f: seq<Option<bytes>>): Option<Rest>
    requires |f| == |TagList()|
  {
    match (DecBounded(f[1], MAX_SID_CTX), DecString(f[4]), DecBounded(f[8], MAX_HASH), DecBool(f[11], false),
           DecUint(f[12], U16_MAX, 0))
    case (Some(sid), Some(psk), Some(hash), Some(ems), Some(group)) =>
      (match (DecBool(f[15], true), DecBool(f[20], false), DecOctets(f[21]))
       case (Some(server), Some(quic), Some(context)) => Some(Rest(sid, psk, hash, ems, group, server, quic, context))
       case _ => None)
    case _ => None
  }

  /** The fields every session begins with.  What follows the integers inside the
      time and timeout fields is not looked at. */
  function ParseHead(s: bytes, ciphers: set<nat>): Read<Core> {
    match GetInteger(s)
    case Fail => Fail
    case Ok(structure, s1) =>
      match GetInteger(s1)
      case Fail => Fail
      case Ok(version, s2) =>
        if structure != STRUCTURE_VERSION || !KnownVersion(version) then Fail
        else
          match GetAsn1(s2, OCTET_STRING)
          case Fail => Fail
          case Ok(cipher, s3) =>
            if |cipher| != 2 || Val(cipher) !in ciphers then Fail
            else ParseSecrets(version, Val(cipher), s3)
  }

  function ParseSecrets(version: nat, cipher: nat, s: bytes): Read<Core> {
    match GetAsn1(s, OCTET_STRING)
    case Fail => Fail
    case Ok(id, s1) =>
      match GetAsn1(s1, OCTET_STRING)
      case Fail => Fail
      case Ok(secret, s2) =>
        if |id| > MAX_ID || |secret| > MAX_SECRET then Fail
        else ParseTimes(version, cipher, id, secret, s2)
  }

  function ParseTimes(version: nat, cipher: nat, id: bytes, secret: bytes, s: bytes): Read<Core> {
    match GetAsn1(s, Explicit(1))
    case Fail => Fail
    case Ok(time, s1) =>
      match GetAsn1(s1, Explicit(2))
      case Fail => Fail
      case Ok(timeout, s2) =>
        match (GetInteger(time), GetInteger(timeout))
        case (Ok(t, _), Ok(o, _)) => if o > U32_MAX then Fail else Ok(Core(version, cipher, id, secret, t, o), s2)
        case _ => Fail
  }

  function ParseBody(s: bytes, ciphers: set<nat>): Option<Session> {
    match ParseHead(s, ciphers)
    case Fail => None
    case Ok(core, s1) =>
      match GetFields(s1, TagList())
      case Fail => None
      case Ok(f, rest) =>
        if rest != [] then None
        else
          match (DecPeer(f), DecTickets(f, core.timeout), DecRest(f))
          case (Some(p), Some(t), Some(r)) => Some(Session(core, p, t, r))
          case _ => None
  }

  /** SSL_SESSION_parse, and the check that nothing follows. */
  function Parse(s: bytes, ciphers: set<nat>): Option<Session> {
    match GetAsn1(s, SEQUENCE)
    case Fail => None
    case Ok(body, rest) => if rest != [] then None else ParseBody(body, ciphers)
  }

  // ---------- The round trip ----------

  lemma HeadBack(c: Core, ciphers: set<nat>, forTicket: bool, rest: bytes)
    requires CoreOk(c, ciphers)
    ensures ParseHead(Head(c, forTicket) + rest, ciphers) == Ok(if forTicket then c.(id := []) else c, rest)
  {
    var id := if forTicket then [] else c.id;
    var (t1, t2) := (Element(Explicit(1), Integer(c.time)), Element(Explicit(2), Integer(c.timeout)));
    TimesBack(c.version, c.cipher, id, c.secret, c.time, c.timeout, rest);
    SecretsBack(c.version, c.cipher, id, c.secret, t1 + (t2 + rest));
    Limits();
    var s3 := OctetString(id) + (OctetString(c.secret) + (t1 + (t2 + rest)));
    CipherBack(c.cipher, s3);
    IntegerBack(c.version, OctetString(Put(c.cipher, 2)) + s3);
    IntegerBack(STRUCTURE_VERSION, Integer(c.version) + (OctetString(Put(c.cipher, 2)) + s3));
    hide GetInteger, GetAsn1, ParseSecrets, OctetString, Element, Integer;
    JoinHead(Integer(STRUCTURE_VERSION), Integer(c.version), OctetString(Put(c.cipher, 2)), OctetString(id),
             OctetString(c.secret), t1, t2, rest);
  }

  lemma JoinHead(a: bytes, b: bytes, c: bytes, d: bytes, e: bytes, f: bytes, g: bytes, rest: bytes)
    ensures a + (b + (c + (d + (e + (f + g))))) + rest == a + (b + (c + (d + (e + (f + (g + rest))))))
  {}

  lemma CipherBack(cipher: nat, rest: bytes)
    requires cipher <= U16_MAX
    ensures GetAsn1(OctetString(Put(cipher, 2)) + rest, OCTET_STRING) == Ok(Put(cipher, 2), rest)
    ensures Val(Put(cipher, 2)) == cipher
  {
    Limits();
    ValPut(cipher, 2);
    ElementBack(OCTET_STRING, Put(cipher, 2), rest);
  }

  lemma TimesBack(version: nat, cipher: nat, id: bytes, secret: bytes, time: nat, timeout: nat, rest: bytes)
    requires time < U64_LIMIT && timeout <= U32_MAX
    ensures ParseTimes(version, cipher, id, secret,
                       Element(Explicit(1), Integer(time)) + (Element(Explicit(2), Integer(timeout)) + rest))
            == Ok(Core(version, cipher, id, secret, time, timeout), rest)
  {
    Limits();
    hide GetInteger, GetAsn1, Element, Integer, Limit;
    SmallInteger(time);
    SmallInteger(timeout);
    ElementBack(Explicit(1), Integer(time), Element(Explicit(2), Integer(timeout)) + rest);
    ElementBack(Explicit(2), Integer(timeout), rest);
  }

  lemma SmallInteger(n: nat)
    requires n < Limit(8)
    ensures |Integer(n)| <= MAX_BODY && GetInteger(Integer(n)) == Ok(n, [])
  {
    IntegerBodyBack(n);
    IntegerBack(n, []);
    assert Integer(n) + [] == Integer(n);
  }

  lemma SecretsBack(version: nat, cipher: nat, id: bytes, secret: bytes, rest: bytes)
    requires |id| <= MAX_ID && |secret| <= MAX_SECRET
    ensures ParseSecrets(version, cipher, OctetString(id) + (OctetString(secret) + rest))
            == ParseTimes(version, cipher, id, secret, rest)
  {
    ElementBack(OCTET_STRING, id, OctetString(secret) + rest);
    ElementBack(OCTET_STRING, secret, rest);
    hide GetAsn1, Element, ParseTimes;
  }

  // One field at a time: what was printed is read back, and what was left out is
  // the parser's default.

  predicate Short(s: bytes) { |s| <= MAX_BODY }

  lemma OctetsField(s: bytes)
    requires Short(s)
    ensures DecOctets(When(s != [], OctetString(s))) == Some(s)
    ensures DecOctets(Some(OctetString(s))) == Some(s)
  {
    OctetsBack(s);
  }

  lemma UintField(n: nat, max: nat, default: nat)
    requires n <= max < U64_LIMIT
    ensures DecUint(When(n != default, Integer(n)), max, default) == Some(n)
    ensures DecUint(Some(Integer(n)), max, default) == Some(n)
  {
    Limits();
    UintBack(n, max);
  }

  lemma BoolField(b: bool, default: bool)
    ensures DecBool(When(b != default, Boolean(b)), default) == Some(b)
  {
    BoolBack(b);
  }

  lemma BufferField(x: Option<bytes>)
    requires x.Some? ==> Short(x.value)
    ensures DecBuffer(OptOctets(x)) == Some(x)
  {
    if x.Some? { OctetsBack(x.value); }
  }

  lemma AgeBack(t: Tickets)
    requires t.ageAdd.Some? ==> t.ageAdd.value <= U32_MAX
    ensures DecAge(AgeField(t)) == Some(t.ageAdd)
  {
    Limits();
    if t.ageAdd.Some? {
      OctetsBack(Put(t.ageAdd.value, 4));
      ValPut(t.ageAdd.value, 4);
    }
  }

  lemma AlpsBack(t: Tickets)
    requires TicketsOk(t) && (t.alps.Some? ==> Short(t.alps.value.0) && Short(t.alps.value.1))
    ensures DecAlps(AlpsField(t, true), AlpsField(t, false), t.earlyAlpn) == Some(t.alps)
  {
    if t.alps.Some? {
      OctetsBack(t.alps.value.0);
      OctetsBack(t.alps.value.1);
    }
  }

  lemma CertsBack(p: Peer)
    requires PeerOk(p)
    ensures DecCerts(PeerField(p), ChainField(p)) == Some(if p.sha256.Some? then [] else p.certs)
  {
    if p.certs != [] && p.sha256.None? {
      var chain := p.certs[1..];
      assert p.certs == [p.certs[0]] + chain;
      if |p.certs| >= 2 { ChainBack(p, chain); } else { assert p.certs == [p.certs[0]]; }
    }
  }

  lemma ChainBack(p: Peer, chain: seq<bytes>)
    requires PeerOk(p) && |p.certs| >= 2 && chain == p.certs[1..]
    ensures SplitElements(Flatten(chain)) == Some(chain) && Flatten(chain) != []
  {
    forall i | 0 <= i < |chain| ensures IsElement(chain[i]) { assert chain[i] == p.certs[i + 1]; }
    SplitBack(chain);
    NotEmpty(chain[0]);
    assert |Flatten(chain)| >= |chain[0]|;
  }

  /** Nothing in the session is too long for a DER length. */
  predicate Fits(s: Session, forTicket: bool) {
    |Body(s, forTicket)| <= MAX_BODY
  }

  lemma {:induction false} FieldsShort(tags: seq<Tag>, fields: seq<Option<bytes>>)
    requires |fields| == |tags| && |EncodeFields(tags, fields)| <= MAX_BODY
    ensures FieldsFit(fields)
  {
    if tags != [] {
      FieldsShort(tags[1..], fields[1..]);
      forall i | 0 <= i < |fields| && fields[i].Some? ensures |fields[i].value| <= MAX_BODY {
        if i > 0 { assert fields[i] == fields[1..][i - 1]; }
      }
    }
  }

  lemma OctetsShort(s: bytes)
    requires |OctetString(s)| <= MAX_BODY
    ensures Short(s)
  {}

  lemma PeerPlaces(s: Session, forTicket: bool)
    ensures var f := Fields(s, forTicket);
            && f[0] == PeerField(s.peer) && f[13] == ChainField(s.peer)
            && f[2] == When(s.peer.verifyResult != 0, Integer(s.peer.verifyResult))
            && f[7] == OptOctets(s.peer.sha256) && f[9] == OptOctets(s.peer.sct) && f[10] == OptOctets(s.peer.ocsp)
            && f[16] == When(s.peer.sigAlg != 0, Integer(s.peer.sigAlg))
  {}

  lemma TicketPlaces(s: Session, forTicket: bool)
    ensures var f := Fields(s, forTicket);
            var t := s.tickets;
            && f[5] == When(t.lifetimeHint > 0, Integer(t.lifetimeHint))
            && f[6] == When(t.ticket != [] && !forTicket, OctetString(t.ticket))
            && f[14] == AgeField(t)
            && f[17] == When(t.maxEarly != 0, Integer(t.maxEarly))
  {}

  lemma MoreTicketPlaces(s: Session, forTicket: bool)
    ensures var f := Fields(s, forTicket);
            var t := s.tickets;
            && f[18] == When(s.core.timeout != t.authTimeout, Integer(t.authTimeout))
            && f[19] == When(t.earlyAlpn != [], OctetString(t.earlyAlpn))
            && f[22] == AlpsField(t, true) && f[23] == AlpsField(t, false)
  {}

  lemma RestPlaces(s: Session, forTicket: bool)
    ensures var f := Fields(s, forTicket);
            var r := s.rest;
            && f[1] == Some(OctetString(r.sidCtx)) && f[4] == OptOctets(r.psk)
            && f[8] == When(r.hash != [], OctetString(r.hash)) && f[11] == When(r.ems, Boolean(true))
            && f[12] == When(r.group > 0, Integer(r.group)) && f[15] == When(!r.isServer, Boolean(false))
            && f[20] == When(r.isQuic, Boolean(true)) && f[21] == When(r.quicContext != [], OctetString(r.quicContext))
  {}

  lemma PeerBack(s: Session, forTicket: bool)
    requires PeerOk(s.peer) && ShortParts(s, forTicket)
    ensures DecPeer(Fields(s, forTicket)) == Some(Kept(s, forTicket).peer)
  {
    PeerPlaces(s, forTicket);
    hide Fields, TagList, DecCerts, DecUint, DecBuffer, Boolean, Integer, OctetString, PeerField, ChainField, OptOctets, When;
    var p := s.peer;
    CertsBack(p);
    UintField(p.verifyResult, LONG_MAX, 0);
    BufferField(p.sha256);
    BufferField(p.sct);
    BufferField(p.ocsp);
    UintField(p.sigAlg, U16_MAX, 0);
  }

  lemma TicketsBack(s: Session, forTicket: bool)
    requires TicketsOk(s.tickets) && ShortParts(s, forTicket)
    ensures DecTickets(Fields(s, forTicket), s.core.timeout) == Some(Kept(s, forTicket).tickets)
  {
    TicketPlaces(s, forTicket);
    MoreTicketPlaces(s, forTicket);
    hide Fields, TagList, DecUint, DecAge, DecAlps, Boolean, Integer, OctetString, ParseOctets, AgeField, AlpsField;
    var t := s.tickets;
    UintField(t.lifetimeHint, U32_MAX, 0);
    if !forTicket { OctetsField(t.ticket); }
    AgeBack(t);
    UintField(t.maxEarly, U32_MAX, 0);
    UintField(t.authTimeout, U32_MAX, s.core.timeout);
    OctetsField(t.earlyAlpn);
    AlpsBack(t);
  }

  lemma RestBack(s: Session, forTicket: bool)
    requires RestOk(s.rest) && ShortParts(s, forTicket)
    ensures DecRest(Fields(s, forTicket)) == Some(s.rest)
  {
    RestPlaces(s, forTicket);
    BoolSame(s.rest);
    hide Fields, TagList, DecUint, DecBool, DecBuffer, DecOctets, Boolean, Integer, OctetString, OptOctets, When;
    var r := s.rest;
    OctetsField(r.sidCtx);
    BufferField(r.psk);
    OctetsField(r.hash);
    UintField(r.group, U16_MAX, 0);
    OctetsField(r.quicContext);
  }

  /** The three booleans, each printed only when it is not the default. */
  lemma BoolSame(r: Rest)
    ensures DecBool(When(r.ems, Boolean(true)), false) == Some(r.ems)
    ensures DecBool(When(!r.isServer, Boolean(false)), true) == Some(r.isServer)
    ensures DecBool(When(r.isQuic, Boolean(true)), false) == Some(r.isQuic)
  {
    BoolField(r.ems, false);
    BoolField(r.isServer, true);
    BoolField(r.isQuic, false);
  }

  /** The byte strings that are printed have lengths DER can express. */
  predicate ShortParts(s: Session, forTicket: bool) {
    && (s.peer.sct.Some? ==> Short(s.peer.sct.value)) && (s.peer.ocsp.Some? ==> Short(s.peer.ocsp.value))
    && (s.peer.sha256.Some? ==> Short(s.peer.sha256.value))
    && (!forTicket ==> Short(s.tickets.ticket)) && Short(s.tickets.earlyAlpn)
    && (s.tickets.alps.Some? ==> Short(s.tickets.alps.value.0) && Short(s.tickets.alps.value.1))
    && Short(s.rest.sidCtx) && Short(s.rest.hash) && Short(s.rest.quicContext)
    && (s.rest.psk.Some? ==> Short(s.rest.psk.value))
  }

  /** They have, because the whole has. */
  lemma PartsShort(s: Session, forTicket: bool)
    requires FieldsFit(Fields(s, forTicket))
    ensures ShortParts(s, forTicket)
  {
    PeerPlaces(s, forTicket);
    TicketPlaces(s, forTicket);
    MoreTicketPlaces(s, forTicket);
    RestPlaces(s, forTicket);
    hide Fields;
    var f := Fields(s, forTicket);
    assert forall k | 0 <= k < FIELDS && f[k].Some? :: |f[k].value| <= MAX_BODY;
    hide FieldsFit;
    forall x: bytes | |OctetString(x)| <= MAX_BODY ensures Short(x) { OctetsShort(x); }
    hide OctetString, Integer, Boolean, Short;
    assert Short([]) by { ShortEmpty(); }
  }

  lemma ShortEmpty()
    ensures Short([])
  {}

  /** For every well-formed session: what is printed parses back to the session,
      but for its certificates when only their hash is kept; a ticket loses the
      session ID and the ticket besides, and nothing else. */
  lemma ParseSerialize(s: Session, ciphers: set<nat>, forTicket: bool)
    requires WellFormed(s, ciphers) && Fits(s, forTicket)
    ensures Parse(Serialize(s, forTicket), ciphers) == Some(Kept(s, forTicket))
  {
    hide Head, EncodeFields, Fields, TagList, ParseHead, GetFields, DecPeer, DecTickets, DecRest, GetAsn1, Element, Kept,
         WellFormed, ShortParts;
    WholeElementBack(SEQUENCE, Body(s, forTicket));
    BodyBack(s, ciphers, forTicket);
  }

  lemma BodyBack(s: Session, ciphers: set<nat>, forTicket: bool)
    requires WellFormed(s, ciphers) && Fits(s, forTicket)
    ensures ParseBody(Body(s, forTicket), ciphers) == Some(Kept(s, forTicket))
  {
    hide Head, EncodeFields, Fields, TagList, ParseHead, GetFields, DecPeer, DecTickets, DecRest, ShortParts,
         CoreOk, PeerOk, TicketsOk, RestOk;
    HeadBack(s.core, ciphers, forTicket, EncodeFields(TagList(), Fields(s, forTicket)));
    FieldsShort(TagList(), Fields(s, forTicket));
    FieldsBack(TagList(), Fields(s, forTicket));
    PartsShort(s, forTicket);
    PeerBack(s, forTicket);
    TicketsBack(s, forTicket);
    RestBack(s, forTicket);
  }
}
