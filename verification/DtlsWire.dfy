/** What crosses the wire in DTLS: handshake fragments inside numbered,
    protected records. */
module DtlsWire {
  import opened Bytes
  import opened Reassembly

  /** The 12-byte header of a handshake fragment (section 4.2.2 of RFC 6347). */
  datatype Header = Header(typ: byte, msgLen: nat, seqNum: nat, fragOff: nat, fragLen: nat)

  predicate FitsHeader(h: Header) {
    && h.msgLen < Limit(3) && h.seqNum < Limit(2)
    && h.fragOff < Limit(3) && h.fragLen < Limit(3)
  }

  function EncodeFragment(h: Header, body: bytes): (s: bytes)
    ensures |s| == HM_HEADER_LENGTH + |body|
  {
    [h.typ] + Put(h.msgLen, 3) + Put(h.seqNum, 2) + Put(h.fragOff, 3) + Put(h.fragLen, 3) + body
  }

  function ParseFragment(s: bytes): (r: Read<(Header, bytes)>)
    ensures r.Ok? ==> |r.rest| < |s| && |r.value.1| == r.value.0.fragLen
    ensures r.Ok? ==> FitsHeader(r.value.0)
  {
    match GetUint(s, 1)
    case Fail => Fail
    case Ok(typ, s1) =>
      PutGet(s, 1);
      assert Limit(1) == 256;
      match GetUint(s1, 3)
      case Fail => Fail
      case Ok(msgLen, s2) =>
        PutGet(s1, 3);
        match GetUint(s2, 2)
        case Fail => Fail
        case Ok(seqNum, s3) =>
          PutGet(s2, 2);
          match GetUint(s3, 3)
          case Fail => Fail
          case Ok(fragOff, s4) =>
            PutGet(s3, 3);
            match GetUint(s4, 3)
            case Fail => Fail
            case Ok(fragLen, s5) =>
              PutGet(s4, 3);
              match GetBytes(s5, fragLen)
              case Fail => Fail
              case Ok(body, rest) => Ok((Header(typ, msgLen, seqNum, fragOff, fragLen), body), rest)
  }

  lemma ParseEncodeFragment(h: Header, body: bytes, rest: bytes)
    requires FitsHeader(h) && h.fragLen == |body|
    ensures ParseFragment(EncodeFragment(h, body) + rest) == Ok((h, body), rest)
  {
    var s5 := body + rest;
    var s4 := Put(h.fragLen, 3) + s5;
    var s3 := Put(h.fragOff, 3) + s4;
    var s2 := Put(h.seqNum, 2) + s3;
    var s1 := Put(h.msgLen, 3) + s2;
    assert Put(h.typ, 1) == [h.typ];
    assert EncodeFragment(h, body) + rest == Put(h.typ, 1) + s1;
    assert Limit(1) == 256;
    GetPut(h.typ, 1, s1);
    GetPut(h.msgLen, 3, s2);
    GetPut(h.seqNum, 2, s3);
    GetPut(h.fragOff, 3, s4);
    GetPut(h.fragLen, 3, s5);
    GetBytesOf(body, rest);
  }

  lemma EncodeParseFragment(s: bytes)
    requires ParseFragment(s).Ok?
    ensures var r := ParseFragment(s); s == EncodeFragment(r.value.0, r.value.1) + r.rest
  {
    ParsedFields(s);
    hide Put, ParseFragment;
    var r := ParseFragment(s);
    var h := r.value.0;
    JoinHeader([h.typ], Put(h.msgLen, 3), Put(h.seqNum, 2), Put(h.fragOff, 3), Put(h.fragLen, 3), r.value.1, r.rest);
  }

  lemma ParsedFields(s: bytes)
    requires ParseFragment(s).Ok?
    ensures var r := ParseFragment(s);
            var h := r.value.0;
            s == [h.typ] + (Put(h.msgLen, 3) + (Put(h.seqNum, 2) + (Put(h.fragOff, 3) + (Put(h.fragLen, 3) + (r.value.1 + r.rest)))))
  {
    hide Put, GetUint, GetBytes;
    var s1 := GetUint(s, 1).rest;
    var s2 := GetUint(s1, 3).rest;
    var s3 := GetUint(s2, 2).rest;
    var s4 := GetUint(s3, 3).rest;
    PutGet(s, 1);
    OneByte(GetUint(s, 1).value);
    PutGet(s1, 3);
    PutGet(s2, 2);
    PutGet(s3, 3);
    PutGet(s4, 3);
    TakeJoin(GetUint(s4, 3).rest, GetUint(s4, 3).value);
  }

  lemma OneByte(n: nat)
    requires n < Limit(1)
    ensures n < 256 && Put(n, 1) == [n]
  {
    assert Limit(1) == 256;
  }

  lemma TakeJoin(s: bytes, n: nat)
    requires GetBytes(s, n).Ok?
    ensures s == GetBytes(s, n).value + GetBytes(s, n).rest
  {}

  lemma JoinHeader(a: bytes, b: bytes, c: bytes, d: bytes, e: bytes, f: bytes, g: bytes)
    ensures a + (b + (c + (d + (e + (f + g))))) == a + b + c + d + e + f + g
  {}

  /** The bytes init_message and finish_message leave: one fragment that is the
      whole message. */
  function Message(typ: byte, seqNum: nat, body: bytes): bytes {
    EncodeFragment(Header(typ, |body|, seqNum, 0, |body|), body)
  }

  /** The message bytes as the sender itself reads them back. */
  function Parsed(data: bytes, offset: nat): Option<(Header, bytes)> {
    match ParseFragment(data)
    case Fail => None
    case Ok((h, body), rest) =>
      if h.fragOff != 0 || h.fragLen != |body| || h.msgLen != |body| || offset > |body| || rest != [] then None
      else Some((h, body))
  }

  /** Only one byte string reads back as a given message. */
  lemma ParsedIsMessage(data: bytes)
    requires Parsed(data, 0).Some?
    ensures var (h, body) := Parsed(data, 0).value; data == Message(h.typ, h.seqNum, body)
  {
    EncodeParseFragment(data);
  }

  /** The protected part of a record.  Protection is ideal: what was sealed under
      the keys of one generation opens under those keys to what was sealed, and
      nothing else opens. */
  datatype Body = Sealed(gen: nat, plain: bytes) | Garbage

  /** A record; the number is the 16-bit epoch followed by 48 sequence bits. */
  datatype Record = Record(typ: byte, number: nat, body: Body)

  /** SSL_MAX_HANDSHAKE_FLIGHT. */
  const N := 7
  const SEQ16 := 0x1_0000
  const SEQ48 := 0x1_0000_0000_0000
  const EPOCHS := 0x1_0000

  function Number(epoch: nat, seqNum: nat): nat { epoch * SEQ48 + seqNum }

  /** The 16-bit r_epoch and w_epoch; gen counts key changes without wrapping. */
  function Epoch(gen: nat): nat { gen % EPOCHS }

  function EpochOf(number: nat): nat { number / SEQ48 }

  function Open(gen: nat, body: Body): Option<bytes> {
    if body.Sealed? && body.gen == gen then Some(body.plain) else None
  }

  const CHANGE_CIPHER_SPEC: byte := 20
  const ALERT: byte := 21
  const HANDSHAKE: byte := 22
  const APPLICATION_DATA: byte := 23
  const CCS_BYTE: byte := 1
}
