/** The inner hello of Encrypted ClientHello on the server: reading a ClientHello,
    expanding ech_outer_extensions with one forward cursor over the outer hello,
    and checking the result (draft-ietf-tls-esni-13, section 7.1 and Appendix B). */
module EchHello {
  import opened Bytes
  import opened Extensions
  import opened HelloWriter

  const RANDOM_SIZE := 32
  const MAX_SESSION_ID := 32
  const CLIENT_HELLO: byte := 1
  const ENCRYPTED_CLIENT_HELLO: u16 := 0xfe0d
  const ECH_CLIENT_INNER: byte := 1
  const SUPPORTED_VERSIONS: u16 := 43

  datatype Hello = Hello(version: u16, random: bytes, sessionId: bytes, ciphers: bytes, compression: bytes, exts: bytes)

  datatype Error = DecodeError | BadPadding | NotFound | InvalidInner | TooLong

  datatype Result = Fine(out: bytes) | Err(error: Error)

  /** What a ClientHello's fields have to be for it to be read. */
  predicate HelloOk(h: Hello) {
    && |h.random| == RANDOM_SIZE && |h.sessionId| <= MAX_SESSION_ID
    && 2 <= |h.ciphers| < Limit(2) && |h.ciphers| % 2 == 0
    && 1 <= |h.compression| < Limit(1)
    && |h.exts| < Limit(2)
    && Parse(h.exts).Some? && Distinct(Types(Parse(h.exts).value))
  }

  /** ssl_client_hello_write_without_extensions. */
  function WriteWithout(h: Hello): bytes {
    Put(h.version, 2) + (h.random + (PutPrefixed(h.sessionId, 1) + (PutPrefixed(h.ciphers, 2) + PutPrefixed(h.compression, 1))))
  }

  function WriteHello(h: Hello): bytes {
    WriteWithout(h) + PutPrefixed(h.exts, 2)
  }

  /** The message around a ClientHello body. */
  function HelloMessage(h: Hello): bytes {
    [CLIENT_HELLO] + PutPrefixed(WriteHello(h), 3)
  }

  /** ssl_parse_client_hello_with_trailing_data: a hello may end after its
      compression methods. */
  function ParseHello(s: bytes): Read<Hello> {
    match GetUint(s, 2)
    case Fail => Fail
    case Ok(version, s1) =>
      PutGet(s, 2);
      Limits();
      match GetBytes(s1, RANDOM_SIZE)
      case Fail => Fail
      case Ok(random, s2) =>
        match GetPrefixed(s2, 1)
        case Fail => Fail
        case Ok(sessionId, s3) => if |sessionId| > MAX_SESSION_ID then Fail else ParseRest(version, random, sessionId, s3)
  }

  function ParseRest(version: u16, random: bytes, sessionId: bytes, s: bytes): Read<Hello> {
    match GetPrefixed(s, 2)
    case Fail => Fail
    case Ok(ciphers, s1) =>
      if |ciphers| < 2 || |ciphers| % 2 != 0 then Fail
      else
        match GetPrefixed(s1, 1)
        case Fail => Fail
        case Ok(compression, s2) =>
          if |compression| < 1 then Fail
          else if s2 == [] then Ok(Hello(version, random, sessionId, ciphers, compression, []), [])
          else
            match GetPrefixed(s2, 2)
            case Fail => Fail
            case Ok(exts, rest) =>
              if Parse(exts).None? || !Distinct(Types(Parse(exts).value)) then Fail
              else Ok(Hello(version, random, sessionId, ciphers, compression, exts), rest)
  }

  lemma ParseWriteRest(h: Hello, rest: bytes)
    requires HelloOk(h)
    ensures ParseRest(h.version, h.random, h.sessionId,
                      PutPrefixed(h.ciphers, 2) + (PutPrefixed(h.compression, 1) + (PutPrefixed(h.exts, 2) + rest)))
            == Ok(h, rest)
  {
    GetPutPrefixed(h.ciphers, 2, PutPrefixed(h.compression, 1) + (PutPrefixed(h.exts, 2) + rest));
    GetPutPrefixed(h.compression, 1, PutPrefixed(h.exts, 2) + rest);
    GetPutPrefixed(h.exts, 2, rest);
    assert |PutPrefixed(h.exts, 2)| >= 2;
    hide Parse, GetPrefixed, PutPrefixed, Types, Distinct;
    assert PutPrefixed(h.exts, 2) + rest != [];
  }

  /** A hello reads back, whatever follows it. */
  lemma ParseWrite(h: Hello, rest: bytes)
    requires HelloOk(h)
    ensures ParseHello(WriteHello(h) + rest) == Ok(h, rest)
  {
    var s3 := PutPrefixed(h.ciphers, 2) + (PutPrefixed(h.compression, 1) + (PutPrefixed(h.exts, 2) + rest));
    ParseWriteRest(h, rest);
    Limits();
    GetPut(h.version, 2, h.random + (PutPrefixed(h.sessionId, 1) + s3));
    GetBytesOf(h.random, PutPrefixed(h.sessionId, 1) + s3);
    GetPutPrefixed(h.sessionId, 1, s3);
    hide Put, GetUint, GetBytes, GetPrefixed, PutPrefixed, ParseRest;
    Regroup(Put(h.version, 2), h.random, PutPrefixed(h.sessionId, 1), PutPrefixed(h.ciphers, 2),
            PutPrefixed(h.compression, 1), PutPrefixed(h.exts, 2), rest);
  }

  lemma Regroup(a: bytes, b: bytes, c: bytes, d: bytes, e: bytes, f: bytes, g: bytes)
    ensures a + (b + (c + (d + e))) + f + g == a + (b + (c + (d + (e + (f + g)))))
  {}

  // ---------- The forward cursor ----------

  datatype Seek = Missing | Malformed | Found(x: Ext, rest: bytes)

  /** Skips to the next extension of a type. */
  function SeekTo(want: u16, outer: bytes): (r: Seek)
    ensures r.Found? ==> |r.rest| < |outer|
    decreases |outer|
  {
    if outer == [] then Missing
    else
      match GetExt(outer)
      case Fail => Malformed
      case Ok(x, rest) => if x.typ == want then Found(x, rest) else SeekTo(want, rest)
  }

  /** Expands a list of types, in order, against what is left of the outer hello's
      extensions. */
  function Expand(list: bytes, outer: bytes): Result
    decreases |list|
  {
    if list == [] then Fine([])
    else
      match GetUint(list, 2)
      case Fail => Err(DecodeError)
      case Ok(want, rest) =>
        PutGet(list, 2);
        Limits();
        match SeekTo(want, outer)
        case Missing => Err(NotFound)
        case Malformed => Err(DecodeError)
        case Found(x, outerRest) =>
          match Expand(rest, outerRest)
          case Err(e) => Err(e)
          case Fine(out) => Fine(EncodeExt(x) + out)
  }

  // ---------- The inner hello ----------

  predicate VersionsOk(v: bytes)
    decreases |v|
  {
    v == [] ||
    match GetUint(v, 2)
    case Fail => false
    case Ok(version, rest) =>
      version !in {0x0300, 0x0301, 0x0302, 0x0303, 0xfeff, 0xfefd} && VersionsOk(rest)
  }

  /** is_valid_client_hello_inner: it says it is an inner hello, and offers nothing
      before TLS 1.3. */
  predicate ValidInner(body: bytes) {
    match ParseHello(body)
    case Fail => false
    case Ok(h, rest) =>
      && rest == []
      && (match Find(h.exts, ENCRYPTED_CLIENT_HELLO)
          case None => false
          case Some((_, ech, _)) => ech == [ECH_CLIENT_INNER])
      && (match Find(h.exts, SUPPORTED_VERSIONS)
          case None => false
          case Some((_, x, _)) =>
            match GetPrefixed(x, 1)
            case Fail => false
            case Ok(versions, after) => after == [] && versions != [] && VersionsOk(versions))
  }

  /** The extensions of the inner hello, with the reference expanded. */
  function InnerExtensions(exts: bytes, outer: bytes): Result {
    match Find(exts, ECH_OUTER_EXTENSIONS)
    case None => Fine(exts)
    case Some((before, wrapper, after)) =>
      match GetPrefixed(wrapper, 1)
      case Fail => Err(DecodeError)
      case Ok(list, rest) =>
        if list == [] || rest != [] then Err(DecodeError)
        else
          match Expand(list, outer)
          case Err(e) => Err(e)
          case Fine(out) => Fine(before + out + after)
  }

  predicate AllZero(s: bytes) {
    forall i | 0 <= i < |s| :: s[i] == 0
  }

  /** ssl_decode_client_hello_inner. */
  function Decode(encoded: bytes, outer: Hello): Result {
    match ParseHello(encoded)
    case Fail => Err(DecodeError)
    case Ok(inner, padding) =>
      if !AllZero(padding) then Err(BadPadding)
      else if inner.exts == [] || inner.sessionId != [] then Err(DecodeError)
      else
        match InnerExtensions(inner.exts, outer.exts)
        case Err(e) => Err(e)
        case Fine(exts) =>
          if |exts| >= Limit(2) then Err(TooLong)
          else
            var h := inner.(sessionId := outer.sessionId, exts := exts);
            if ValidInner(WriteHello(h)) then Fine(HelloMessage(h)) else Err(InvalidInner)
  }

  // ---------- As the code does it ----------

  method ExpandOuter(list: bytes, outer: bytes) returns (r: Result)
    ensures r == Expand(list, outer)
  {
    hide GetExt, EncodeExt, SeekTo, GetUint;
    var extList, outerExtensions, out: bytes := list, outer, [];
    while |extList| != 0
      invariant Expand(list, outer) == (match Expand(extList, outerExtensions)
                                        case Err(e) => Err(e)
                                        case Fine(more) => Fine(out + more))
      decreases |extList|
    {
      var w := GetUint(extList, 2);
      if w.Fail? {
        return Err(DecodeError);
      }
      ShorterList(extList);
      var s := SeekOuter(w.value, outerExtensions);
      match s {
        case Missing => return Err(NotFound);
        case Malformed => return Err(DecodeError);
        case Found(x, rest) =>
          ghost var before := out;
          ghost var tail := Expand(w.rest, rest);
          if tail.Fine? { assert before + (EncodeExt(x) + tail.out) == before + EncodeExt(x) + tail.out; }
          extList, outerExtensions, out := w.rest, rest, out + EncodeExt(x);
      }
    }
    return Fine(out);
  }

  lemma ShorterList(s: bytes)
    requires GetUint(s, 2).Ok?
    ensures |GetUint(s, 2).rest| < |s| && GetUint(s, 2).value < 0x1_0000
  {
    PutGet(s, 2);
    Limits();
  }

  method SeekOuter(want: u16, outer: bytes) returns (r: Seek)
    ensures r == SeekTo(want, outer)
  {
    hide GetExt;
    var rest := outer;
    while true
      invariant SeekTo(want, rest) == SeekTo(want, outer)
      decreases |rest|
    {
      if |rest| == 0 {
        return Missing;
      }
      var x := GetExt(rest);
      if x.Fail? {
        return Malformed;
      }
      if x.value.typ == want {
        return Found(x.value, x.rest);
      }
      rest := x.rest;
    }
  }

  method DecodeInner(encoded: bytes, outer: Hello) returns (r: Result)
    ensures r == Decode(encoded, outer)
  {
    hide ParseHello, Find, Expand, ValidInner, HelloMessage, WriteHello, GetPrefixed;
    var p := ParseHello(encoded);
    if p.Fail? {
      return Err(DecodeError);
    }
    var inner, cbs := p.value, p.rest;
    var i := 0;
    while i < |cbs|
      invariant 0 <= i <= |cbs| && forall j | 0 <= j < i :: cbs[j] == 0
    {
      if cbs[i] != 0 {
        return Err(BadPadding);
      }
      i := i + 1;
    }
    if |inner.exts| == 0 || |inner.sessionId| != 0 {
      return Err(DecodeError);
    }
    var exts := inner.exts;
    var wrapper := Find(exts, ECH_OUTER_EXTENSIONS);
    if wrapper.Some? {
      var list := GetPrefixed(wrapper.value.1, 1);
      if list.Fail? || list.value == [] || list.rest != [] {
        return Err(DecodeError);
      }
      r := ExpandOuter(list.value, outer.exts);
      if r.Err? {
        return;
      }
      exts := wrapper.value.0 + r.out + wrapper.value.2;
    }
    if |exts| >= Limit(2) {
      return Err(TooLong);
    }
    var h := inner.(sessionId := outer.sessionId, exts := exts);
    return if ValidInner(WriteHello(h)) then Fine(HelloMessage(h)) else Err(InvalidInner);
  }
}
