/** The printed form of a session, byte for byte: which field stands where and
    under which tag, told by the numbers; and that nothing else is a session. */
module SessionFormat {
  import opened Bytes
  import opened Der
  import opened SslSession

  // ---------- Elements ----------

  /** Tag, length in the fewest bytes, body. */
  lemma ElementIs(tag: byte, body: bytes)
    requires |body| <= 0xffff_ffff
    ensures var n := |body|;
            Element(tag, body) ==
            (if n < 0x80 then [tag, n]
             else if n < 0x100 then [tag, 0x81, n]
             else if n < 0x1_0000 then [tag, 0x82, n / 0x100, n % 0x100]
             else if n < 0x100_0000 then [tag, 0x83, n / 0x1_0000, n / 0x100 % 0x100, n % 0x100]
             else [tag, 0x84, n / 0x100_0000, n / 0x1_0000 % 0x100, n / 0x100 % 0x100, n % 0x100]) + body
  {
    LengthDigits(|body|);
    hide LengthBytes;
    var l := LengthBytes(|body|);
    assert [tag] + (l + body) == [tag] + l + body;
  }

  lemma LengthDigits(n: nat)
    requires n <= 0xffff_ffff
    ensures LengthBytes(n) ==
            if n < 0x80 then [n]
            else if n < 0x100 then [0x81, n]
            else if n < 0x1_0000 then [0x82, n / 0x100, n % 0x100]
            else if n < 0x100_0000 then [0x83, n / 0x1_0000, n / 0x100 % 0x100, n % 0x100]
            else [0x84, n / 0x100_0000, n / 0x1_0000 % 0x100, n / 0x100 % 0x100, n % 0x100]
  {
    PutOne(n);
    TwoDigits(n);
    ThreeDigits(n);
    FourDigits(n);
    hide Put;
  }

  /** What is read as an element is one, and reads as no other: tag numbers up to
      30, lengths in their shortest form. */
  lemma ReadIsElement(s: bytes)
    requires GetAny(s).Ok?
    ensures var r := GetAny(s);
            && s == Element(r.value.0, r.value.1) + r.rest
            && r.value.0 % 32 != 31 && |r.value.1| <= 0xffff_ffff
  {
    var t := s[1..];
    LengthIs(t);
    var r := GetAny(s);
    var n := GetLength(t).value;
    var u := GetLength(t).rest;
    assert u == u[..n] + u[n..];
    assert s == [s[0]] + t;
    hide LengthBytes, GetLength;
    var l := LengthBytes(n);
    assert [s[0]] + (l + (r.value.1 + r.rest)) == [s[0]] + (l + r.value.1) + r.rest;
  }

  lemma LengthIs(s: bytes)
    requires GetLength(s).Ok?
    ensures s == LengthBytes(GetLength(s).value) + GetLength(s).rest && GetLength(s).value <= 0xffff_ffff
  {
    Limits();
    var n := GetLength(s).value;
    if s[0] >= 0x80 {
      var k := s[0] - 0x80;
      PutGet(s[1..], k);
      assert Limit(0) == 1;
      assert k == LengthSize(n);
      assert s == [s[0]] + s[1..];
    }
  }

  /** The shortest unsigned form: eight bytes' worth of digits, a zero in front
      only of a byte that would make it negative. */
  lemma IntegerIs(n: nat)
    requires n < 0x1_0000_0000_0000_0000
    ensures var b := IntegerBody(n);
            && Integer(n) == [0x02, |b|] + b && 1 <= |b| <= 9 && Val(b) == n && b[0] < 0x80
            && (|b| > 1 && b[0] == 0 ==> b[1] >= 0x80)
  {
    Limits();
    IntegerBodyBack(n);
    ElementIs(0x02, IntegerBody(n));
    hide IntegerBody, Val, Limit;
  }

  lemma {:induction false} DigitsOf(s: bytes)
    requires s != [] && s[0] > 0
    ensures Val(s) > 0 && ByteLength(Val(s)) == |s|
  {
    var n := |s| - 1;
    assert Val(s) / 256 == Val(s[..n]);
    if n > 0 { DigitsOf(s[..n]); } else { assert ByteLength(Val(s) / 256) == 0; }
  }

  /** A number, a truth value and an octet string have one form each: what is read
      as one is what is written for it. */
  lemma OneUint(s: bytes, max: nat)
    requires ParseUint(s, max).Some?
    ensures var n := ParseUint(s, max).value; s == Integer(n) && n <= max && n < 0x1_0000_0000_0000_0000
  {
    ReadIsElement(s);
    OneInteger(GetAny(s).value.1);
    hide GetAny, ParseInteger, IntegerBody, Element;
    forall x: bytes ensures x + [] == x {}
  }

  lemma OneBool(s: bytes)
    requires ParseBool(s).Some?
    ensures s == Boolean(ParseBool(s).value)
  {
    ReadIsElement(s);
    var body := GetAny(s).value.1;
    hide GetAny, Element;
    assert body == [body[0]];
    forall x: bytes ensures x + [] == x {}
  }

  lemma OneOctets(s: bytes)
    requires ParseOctets(s).Some?
    ensures s == OctetString(ParseOctets(s).value)
  {
    ReadIsElement(s);
    hide GetAny, Element;
    forall x: bytes ensures x + [] == x {}
  }

  lemma OneInteger(body: bytes)
    requires ParseInteger(body).Some?
    ensures body == IntegerBody(ParseInteger(body).value) && ParseInteger(body).value < 0x1_0000_0000_0000_0000
  {
    Limits();
    PutVal(body);
    var n := Val(body);
    if body[0] > 0 {
      DigitsOf(body);
    } else {
      var s := body[1..];
      assert body == [0] + s;
      LeadingZero(s);
      PutVal(s);
      if s != [] { DigitsOf(s); } else { assert Put(0, 0) == []; }
    }
  }

  // ---------- Where the fields are ----------

  /** An element that is there or not. */
  function Opt(tag: byte, field: Option<bytes>): bytes {
    if field.Some? then Element(tag, field.value) else []
  }

  /** The optional fields with their tags: 3 to 6, 8 to 10, 13 to 19 and 21 to 30,
      context-specific and constructed. */
  function Laid(f: seq<Option<bytes>>): bytes
    requires |f| == 24
  {
    First(f) + (Second(f) + Third(f))
  }

  function First(f: seq<Option<bytes>>): bytes
    requires |f| == 24
  {
    Opt(0xa3, f[0]) + (Opt(0xa4, f[1]) + (Opt(0xa5, f[2]) + (Opt(0xa6, f[3]) +
    (Opt(0xa8, f[4]) + (Opt(0xa9, f[5]) + (Opt(0xaa, f[6]) + Opt(0xad, f[7])))))))
  }

  function Second(f: seq<Option<bytes>>): bytes
    requires |f| == 24
  {
    Opt(0xae, f[8]) + (Opt(0xaf, f[9]) + (Opt(0xb0, f[10]) + (Opt(0xb1, f[11]) +
    (Opt(0xb2, f[12]) + (Opt(0xb3, f[13]) + (Opt(0xb5, f[14]) + Opt(0xb6, f[15])))))))
  }

  function Third(f: seq<Option<bytes>>): bytes
    requires |f| == 24
  {
    Opt(0xb7, f[16]) + (Opt(0xb8, f[17]) + (Opt(0xb9, f[18]) + (Opt(0xba, f[19]) +
    (Opt(0xbb, f[20]) + (Opt(0xbc, f[21]) + (Opt(0xbd, f[22]) + Opt(0xbe, f[23])))))))
  }

  lemma TagsAre()
    ensures TagList() == [3, 4, 5, 6, 8, 9, 10, 13] + [14, 15, 16, 17, 18, 19, 21, 22] + [23, 24, 25, 26, 27, 28, 29, 30]
  {}

  lemma {:induction false} FieldsAppend(t: seq<Tag>, u: seq<Tag>, f: seq<Option<bytes>>, g: seq<Option<bytes>>)
    requires |t| == |f| && |u| == |g|
    ensures EncodeFields(t + u, f + g) == EncodeFields(t, f) + EncodeFields(u, g)
    decreases |t|
  {
    hide EncodeField;
    if t == [] {
      assert t + u == u && f + g == g;
    } else {
      assert (t + u)[1..] == t[1..] + u && (f + g)[1..] == f[1..] + g;
      FieldsAppend(t[1..], u, f[1..], g);
    }
  }

  lemma Two(a: Tag, b: Tag, f: seq<Option<bytes>>)
    requires |f| == 2
    ensures EncodeFields([a, b], f) == Opt(Explicit(a), f[0]) + Opt(Explicit(b), f[1])
  {
    var t := [a, b];
    assert t[1..] == [b] && f[1..] == [f[1]];
    assert EncodeFields(t[2..], f[2..]) == [];
    assert EncodeFields([b], [f[1]]) == Opt(Explicit(b), f[1]) + EncodeFields(t[2..], f[2..]);
  }

  lemma Eight(t: seq<Tag>, f: seq<Option<bytes>>)
    requires |t| == |f| == 8
    ensures EncodeFields(t, f) ==
            Opt(Explicit(t[0]), f[0]) + (Opt(Explicit(t[1]), f[1]) + (Opt(Explicit(t[2]), f[2]) + (Opt(Explicit(t[3]), f[3]) +
            (Opt(Explicit(t[4]), f[4]) + (Opt(Explicit(t[5]), f[5]) + (Opt(Explicit(t[6]), f[6]) + Opt(Explicit(t[7]), f[7])))))))
  {
    hide EncodeFields, Opt;
    assert t == [t[0], t[1]] + ([t[2], t[3]] + ([t[4], t[5]] + [t[6], t[7]]));
    assert f == f[..2] + (f[2..4] + (f[4..6] + f[6..]));
    FieldsAppend([t[0], t[1]], [t[2], t[3]] + ([t[4], t[5]] + [t[6], t[7]]), f[..2], f[2..4] + (f[4..6] + f[6..]));
    FieldsAppend([t[2], t[3]], [t[4], t[5]] + [t[6], t[7]], f[2..4], f[4..6] + f[6..]);
    FieldsAppend([t[4], t[5]], [t[6], t[7]], f[4..6], f[6..]);
    Two(t[0], t[1], f[..2]);
    Two(t[2], t[3], f[2..4]);
    Two(t[4], t[5], f[4..6]);
    Two(t[6], t[7], f[6..]);
    Join(Opt(Explicit(t[0]), f[0]), Opt(Explicit(t[1]), f[1]), Opt(Explicit(t[2]), f[2]), Opt(Explicit(t[3]), f[3]),
         Opt(Explicit(t[4]), f[4]), Opt(Explicit(t[5]), f[5]), Opt(Explicit(t[6]), f[6]), Opt(Explicit(t[7]), f[7]));
  }

  lemma Join(a: bytes, b: bytes, c: bytes, d: bytes, e: bytes, f: bytes, g: bytes, h: bytes)
    ensures a + b + (c + d + (e + f + (g + h))) == a + (b + (c + (d + (e + (f + (g + h))))))
  {}

  /** The fields are written under these tags, and each is looked for under its
      own. */
  lemma LaidIs(f: seq<Option<bytes>>)
    requires |f| == 24
    ensures |TagList()| == 24 && EncodeFields(TagList(), f) == Laid(f)
    ensures FieldsFit(f) ==> GetFields(Laid(f), TagList()) == Ok(f, [])
  {
    TagsAre();
    var (t, u, v) := ([3, 4, 5, 6, 8, 9, 10, 13], [14, 15, 16, 17, 18, 19, 21, 22], [23, 24, 25, 26, 27, 28, 29, 30]);
    assert t + u + v == t + (u + v);
    assert f == f[..8] + (f[8..16] + f[16..]);
    if FieldsFit(f) { FieldsBack(TagList(), f); }
    hide EncodeFields, Opt, TagList, GetFields, FieldsFit, First, Second, Third;
    FirstIs(f);
    SecondIs(f);
    ThirdIs(f);
    FieldsAppend(t, u + v, f[..8], f[8..16] + f[16..]);
    FieldsAppend(u, v, f[8..16], f[16..]);
  }

  lemma FirstIs(f: seq<Option<bytes>>)
    requires |f| == 24
    ensures EncodeFields([3, 4, 5, 6, 8, 9, 10, 13], f[..8]) == First(f)
  {
    Eight([3, 4, 5, 6, 8, 9, 10, 13], f[..8]);
    hide EncodeFields, Opt;
  }

  lemma SecondIs(f: seq<Option<bytes>>)
    requires |f| == 24
    ensures EncodeFields([14, 15, 16, 17, 18, 19, 21, 22], f[8..16]) == Second(f)
  {
    Eight([14, 15, 16, 17, 18, 19, 21, 22], f[8..16]);
    hide EncodeFields, Opt;
  }

  lemma ThirdIs(f: seq<Option<bytes>>)
    requires |f| == 24
    ensures EncodeFields([23, 24, 25, 26, 27, 28, 29, 30], f[16..]) == Third(f)
  {
    Eight([23, 24, 25, 26, 27, 28, 29, 30], f[16..]);
    hide EncodeFields, Opt;
  }

  // ---------- What the fields are ----------

  /** Present only when cond holds. */
  function If(cond: bool, body: bytes): Option<bytes> { if cond then Some(body) else None }

  /** An octet string, if there is one. */
  function Octets(x: Option<bytes>): Option<bytes> { if x.Some? then Some(Element(0x04, x.value)) else None }

  /** The certificates that are printed: none when their hash is. */
  function Certs(p: Peer): seq<bytes> { if p.sha256.None? then p.certs else [] }

  /** The fields by what they mean. */
  function Meant(s: Session, forTicket: bool): (f: seq<Option<bytes>>)
    ensures |f| == 24
  {
    MeantFirst(s, forTicket) + MeantSecond(s) + MeantThird(s)
  }

  function MeantFirst(s: Session, forTicket: bool): (f: seq<Option<bytes>>)
    ensures |f| == 8
  {
    [if Certs(s.peer) == [] then None else Some(Certs(s.peer)[0]),
     Some(Element(0x04, s.rest.sidCtx)),
     If(s.peer.verifyResult != 0, Element(0x02, IntegerBody(s.peer.verifyResult))),
     None,
     Octets(s.rest.psk),
     If(s.tickets.lifetimeHint != 0, Element(0x02, IntegerBody(s.tickets.lifetimeHint))),
     If(!forTicket && s.tickets.ticket != [], Element(0x04, s.tickets.ticket)),
     Octets(s.peer.sha256)]
  }

  function MeantSecond(s: Session): (f: seq<Option<bytes>>)
    ensures |f| == 8
  {
    [If(s.rest.hash != [], Element(0x04, s.rest.hash)),
     Octets(s.peer.sct),
     Octets(s.peer.ocsp),
     If(s.rest.ems, [0x01, 0x01, 0xff]),
     If(s.rest.group != 0, Element(0x02, IntegerBody(s.rest.group))),
     if |Certs(s.peer)| >= 2 then Some(Flatten(Certs(s.peer)[1..])) else None,
     if s.tickets.ageAdd.Some? then Some(Element(0x04, Put(s.tickets.ageAdd.value, 4))) else None,
     If(!s.rest.isServer, [0x01, 0x01, 0x00])]
  }

  function MeantThird(s: Session): (f: seq<Option<bytes>>)
    ensures |f| == 8
  {
    [If(s.peer.sigAlg != 0, Element(0x02, IntegerBody(s.peer.sigAlg))),
     If(s.tickets.maxEarly != 0, Element(0x02, IntegerBody(s.tickets.maxEarly))),
     If(s.tickets.authTimeout != s.core.timeout, Element(0x02, IntegerBody(s.tickets.authTimeout))),
     If(s.tickets.earlyAlpn != [], Element(0x04, s.tickets.earlyAlpn)),
     If(s.rest.isQuic, [0x01, 0x01, 0xff]),
     If(s.rest.quicContext != [], Element(0x04, s.rest.quicContext)),
     if s.tickets.alps.Some? then Some(Element(0x04, s.tickets.alps.value.0)) else None,
     if s.tickets.alps.Some? then Some(Element(0x04, s.tickets.alps.value.1)) else None]
  }

  lemma FieldsAre(s: Session, forTicket: bool)
    ensures Fields(s, forTicket) == Meant(s, forTicket)
  {
    hide FieldAt, MeantFirst, MeantSecond, MeantThird;
    forall k | 0 <= k < 24 ensures Fields(s, forTicket)[k] == Meant(s, forTicket)[k] {
      if k < 8 { FirstAre(s, forTicket, k); } else if k < 16 { SecondAre(s, forTicket, k); } else { ThirdAre(s, forTicket, k); }
    }
  }

  lemma FirstAre(s: Session, forTicket: bool, k: nat)
    requires k < 8
    ensures FieldAt(s, forTicket, k) == MeantFirst(s, forTicket)[k]
  {
    hide Element, IntegerBody;
  }

  lemma SecondAre(s: Session, forTicket: bool, k: nat)
    requires 8 <= k < 16
    ensures FieldAt(s, forTicket, k) == MeantSecond(s)[k - 8]
  {
    BooleansAre();
    hide Element, IntegerBody, Flatten, Boolean, Put;
  }

  lemma ThirdAre(s: Session, forTicket: bool, k: nat)
    requires 16 <= k < 24
    ensures FieldAt(s, forTicket, k) == MeantThird(s)[k - 16]
  {
    BooleansAre();
    hide Element, IntegerBody, Boolean;
  }

  lemma BooleansAre()
    ensures Boolean(true) == [0x01, 0x01, 0xff] && Boolean(false) == [0x01, 0x01, 0x00]
  {
    ElementIs(0x01, [0xff]);
    ElementIs(0x01, [0]);
  }

  /** The fields every session begins with. */
  function Beginning(c: Core, forTicket: bool): bytes {
    [0x02, 0x01, 0x01] + (Element(0x02, IntegerBody(c.version)) + (Element(0x04, Put(c.cipher, 2)) +
    (Element(0x04, if forTicket then [] else c.id) + (Element(0x04, c.secret) +
    (Element(0xa1, Element(0x02, IntegerBody(c.time))) + Element(0xa2, Element(0x02, IntegerBody(c.timeout))))))))
  }

  /** The whole: a sequence of structure version 1, protocol version, cipher,
      session ID, secret, time and timeout, and then each field that is there under
      its tag. */
  lemma Layout(s: Session, forTicket: bool)
    ensures Serialize(s, forTicket) == Element(0x30, Beginning(s.core, forTicket) + Laid(Meant(s, forTicket)))
  {
    FieldsAre(s, forTicket);
    LaidIs(Fields(s, forTicket));
    assert Integer(1) == [0x02, 0x01, 0x01] by { OneIs(); }
    hide Fields, Meant, Laid, Element, IntegerBody, EncodeFields, TagList, Put;
  }

  lemma OneIs()
    ensures Integer(1) == [0x02, 0x01, 0x01]
  {
    assert ByteLength(1) == 1 + ByteLength(0);
    assert Put(1, 1) == Put(0, 0) + [1];
  }

  // ---------- What is a session ----------

  /** The bounds of what is read, by the numbers. */
  predicate Bounded(s: Session, ciphers: set<nat>) {
    && s.core.version in {0x0301, 0x0302, 0x0303, 0x0304, 0xfeff, 0xfefd}
    && s.core.cipher in ciphers && s.core.cipher <= 0xffff && |s.core.id| <= 32 && |s.core.secret| <= 48
    && s.core.time < 0x1_0000_0000_0000_0000 && s.core.timeout <= 0xffff_ffff
    && s.peer.verifyResult <= 0x7fff_ffff_ffff_ffff && s.peer.sigAlg <= 0xffff
    && (s.peer.sha256.Some? ==> |s.peer.sha256.value| == 32)
    && s.tickets.lifetimeHint <= 0xffff_ffff && s.tickets.maxEarly <= 0xffff_ffff && s.tickets.authTimeout <= 0xffff_ffff
    && (s.tickets.ageAdd.Some? ==> s.tickets.ageAdd.value <= 0xffff_ffff)
    && (s.tickets.alps.Some? ==> s.tickets.earlyAlpn != [])
    && |s.rest.sidCtx| <= 32 && |s.rest.hash| <= 64 && s.rest.group <= 0xffff
    && (s.rest.psk.Some? ==> 0 !in s.rest.psk.value)
    && (s.peer.certs != [] ==> s.peer.certs[0] != [])
    && (forall i | 1 <= i < |s.peer.certs| :: IsElement(s.peer.certs[i]))
  }

  lemma BoundedIs(s: Session, ciphers: set<nat>)
    ensures Bounded(s, ciphers) <==> WellFormed(s, ciphers)
  {
    hide IsElement;
  }

  /** Whatever bytes are accepted, the session read from them is within the bounds,
      and so comes back if it is printed. */
  lemma ParsedIsBounded(b: bytes, ciphers: set<nat>)
    requires Parse(b, ciphers).Some?
    ensures Bounded(Parse(b, ciphers).value, ciphers)
  {
    var s := Parse(b, ciphers).value;
    var body := GetAsn1(b, SEQUENCE).value;
    hide GetAsn1;
    BodyBounded(body, ciphers);
  }

  /** Printing what was read, and reading it again, changes nothing but what is not
      kept. */
  lemma Reprinted(b: bytes, ciphers: set<nat>, forTicket: bool)
    requires Parse(b, ciphers).Some? && Fits(Parse(b, ciphers).value, forTicket)
    ensures var s := Parse(b, ciphers).value; Parse(Serialize(s, forTicket), ciphers) == Some(Kept(s, forTicket))
  {
    ParsedIsBounded(b, ciphers);
    hide Parse, Serialize, Kept, Fits;
    BoundedIs(Parse(b, ciphers).value, ciphers);
    ParseSerialize(Parse(b, ciphers).value, ciphers, forTicket);
  }

  /** What is kept, by the fields: everything, but the certificates only without
      their hash, and in a ticket neither the session ID nor the ticket. */
  lemma KeptIs(s: Session, forTicket: bool)
    ensures var k := Kept(s, forTicket);
            && k.core == s.core.(id := k.core.id) && k.core.id == (if forTicket then [] else s.core.id)
            && k.peer == s.peer.(certs := k.peer.certs) && k.peer.certs == (if s.peer.sha256.Some? then [] else s.peer.certs)
            && k.tickets == s.tickets.(ticket := k.tickets.ticket) && k.tickets.ticket == (if forTicket then [] else s.tickets.ticket)
            && k.rest == s.rest
  {}

  lemma BodyBounded(body: bytes, ciphers: set<nat>)
    requires ParseBody(body, ciphers).Some?
    ensures Bounded(ParseBody(body, ciphers).value, ciphers)
  {
    hide GetFields, GetAsn1, GetInteger, IsElement, DecPeer, DecTickets, DecRest, TagList;
    var core := ParseHead(body, ciphers).value;
    var f := GetFields(ParseHead(body, ciphers).rest, TagList()).value;
    HeadBounded(body, ciphers);
    PeerBounded(f);
    TicketsBounded(f, core.timeout);
    RestBounded(f);
    hide ParseHead;
    BoundedIs(ParseBody(body, ciphers).value, ciphers);
  }

  lemma HeadBounded(s: bytes, ciphers: set<nat>)
    requires ParseHead(s, ciphers).Ok?
    ensures CoreOk(ParseHead(s, ciphers).value, ciphers)
  {
    hide GetInteger, GetAsn1, ParseSecrets, Val, KnownVersion;
    match GetInteger(s) {
      case Ok(structure, s1) =>
        match GetInteger(s1) {
          case Ok(version, s2) =>
            match GetAsn1(s2, OCTET_STRING) {
              case Ok(cipher, s3) =>
                TwoBytes(cipher);
                SecretsBounded(version, Val(cipher), s3);
            }
        }
    }
  }

  lemma TwoBytes(s: bytes)
    ensures |s| == 2 ==> Val(s) <= 0xffff
  {
    PutVal(s);
    Limits();
  }

  lemma SecretsBounded(version: nat, cipher: nat, s: bytes)
    requires ParseSecrets(version, cipher, s).Ok?
    ensures var c := ParseSecrets(version, cipher, s).value;
            && c.version == version && c.cipher == cipher && |c.id| <= MAX_ID && |c.secret| <= MAX_SECRET
            && c.time < U64_LIMIT && c.timeout <= U32_MAX
  {
    var s1 := GetAsn1(s, OCTET_STRING).rest;
    var s2 := GetAsn1(s1, OCTET_STRING).rest;
    var s3 := GetAsn1(s2, Explicit(1)).rest;
    SmallRead(GetAsn1(s2, Explicit(1)).value);
    hide GetAsn1, GetInteger;
  }

  lemma SmallRead(s: bytes)
    ensures GetInteger(s).Ok? ==> GetInteger(s).value < 0x1_0000_0000_0000_0000
  {
    Limits();
    hide GetAsn1, Val, Limit;
  }

  lemma UintBounded(f: Option<bytes>, max: nat, default: nat)
    requires default <= max
    ensures DecUint(f, max, default).Some? ==> DecUint(f, max, default).value <= max
  {
    hide GetInteger;
  }

  lemma {:induction false} SplitBounded(s: bytes)
    requires SplitElements(s).Some?
    ensures forall i | 0 <= i < |SplitElements(s).value| :: IsElement(SplitElements(s).value[i])
    decreases |s|
  {
    if s != [] {
      var r := GetAny(s);
      SplitBounded(r.rest);
      var cert := s[..|s| - |r.rest|];
      OneElement(s);
      hide GetAny, IsElement;
      var xs := SplitElements(r.rest).value;
      assert SplitElements(s).value == [cert] + xs;
    }
  }

  /** An element cut off from what follows it. */
  lemma OneElement(s: bytes)
    requires GetAny(s).Ok?
    ensures IsElement(s[..|s| - |GetAny(s).rest|])
  {
    var r := GetAny(s);
    var (t, u) := (s[1..], GetLength(s[1..]).rest);
    var n := GetLength(t).value;
    var x := s[..|s| - |r.rest|];
    ReadIsElement(s);
    LengthIs(t);
    assert |t| == |LengthBytes(n)| + |u|;
    assert x == Element(s[0], r.value.1) by {
      assert s == Element(s[0], r.value.1) + r.rest;
    }
    LengthThere(n);
    assert x[1..] == LengthBytes(n) + r.value.1;
    hide LengthBytes, GetLength;
    assert r.value.1[n..] == [];
  }

  /** Any length of four bytes or fewer is read back. */
  lemma LengthThere(n: nat)
    requires n <= 0xffff_ffff
    ensures forall rest: bytes :: GetLength(LengthBytes(n) + rest) == Ok(n, rest)
  {
    forall rest: bytes ensures GetLength(LengthBytes(n) + rest) == Ok(n, rest) {
      if n > 0x7f {
        var k := LengthSize(n);
        Limits();
        assert Limit(k - 1) <= n < Limit(k) by { assert Limit(0) == 1; }
        GetPut(n, k, rest);
        hide Put, GetUint, Limit;
        assert (LengthBytes(n) + rest)[1..] == Put(n, k) + rest;
      }
    }
  }

  lemma PeerBounded(f: seq<Option<bytes>>)
    requires |f| == |TagList()| && DecPeer(f).Some?
    ensures PeerOk(DecPeer(f).value)
  {
    UintBounded(f[2], LONG_MAX, 0);
    UintBounded(f[16], U16_MAX, 0);
    CertsBounded(f[0], f[13]);
    hide TagList, DecCerts, DecUint, DecBuffer, IsElement;
  }

  lemma CertsBounded(peer: Option<bytes>, chain: Option<bytes>)
    requires DecCerts(peer, chain).Some?
    ensures var certs := DecCerts(peer, chain).value;
            (certs != [] ==> certs[0] != []) && forall i | 1 <= i < |certs| :: IsElement(certs[i])
  {
    if peer.Some? && chain.Some? {
      SplitBounded(chain.value);
      hide IsElement, SplitElements;
      var xs := SplitElements(chain.value).value;
      forall i | 1 <= i < 1 + |xs| ensures IsElement(([peer.value] + xs)[i]) { assert ([peer.value] + xs)[i] == xs[i - 1]; }
    }
  }

  lemma TicketsBounded(f: seq<Option<bytes>>, timeout: nat)
    requires |f| == |TagList()| && timeout <= U32_MAX && DecTickets(f, timeout).Some?
    ensures TicketsOk(DecTickets(f, timeout).value)
  {
    UintBounded(f[5], U32_MAX, 0);
    UintBounded(f[17], U32_MAX, 0);
    UintBounded(f[18], U32_MAX, timeout);
    AgeBounded(f[14]);
    hide TagList, DecUint, DecOctets, DecAge;
  }

  lemma AgeBounded(f: Option<bytes>)
    ensures DecAge(f).Some? && DecAge(f).value.Some? ==> DecAge(f).value.value <= 0xffff_ffff
  {
    match DecBuffer(f) {
      case Some(Some(v)) =>
        PutVal(v);
        Limits();
      case _ =>
    }
    hide DecBuffer, Val, Limit;
  }

  lemma RestBounded(f: seq<Option<bytes>>)
    requires |f| == |TagList()| && DecRest(f).Some?
    ensures RestOk(DecRest(f).value)
  {
    UintBounded(f[12], U16_MAX, 0);
    hide TagList, DecUint, DecBool, DecOctets, DecBuffer;
  }
}
