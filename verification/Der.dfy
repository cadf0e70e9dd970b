/** DER elements as the builder writes them and the cursor reads them (ITU-T
    X.690), for tag numbers up to 30. */
module Der {
  import opened Bytes

  const INTEGER: byte := 0x02
  const BOOLEAN: byte := 0x01
  const OCTET_STRING: byte := 0x04
  const SEQUENCE: byte := 0x30
  const MAX_BODY := 0xffff_fffe

  /** How many bytes a length of 128 or more takes. */
  function LengthSize(n: nat): (k: nat)
    ensures 1 <= k <= 4
  {
    if n > 0xff_ffff then 4 else if n > 0xffff then 3 else if n > 0xff then 2 else 1
  }

  function LengthBytes(n: nat): (s: bytes)
    ensures s != []
  {
    if n <= 0x7f then [n] else [0x80 + LengthSize(n)] + Put(n, LengthSize(n))
  }

  function Element(tag: byte, body: bytes): bytes {
    [tag] + (LengthBytes(|body|) + body)
  }

  /** The length and what follows it; lengths have one form only. */
  function GetLength(s: bytes): (r: Read<nat>)
    ensures r.Ok? ==> |r.rest| < |s|
  {
    if s == [] then Fail
    else if s[0] < 0x80 then Ok(s[0], s[1..])
    else
      var k := s[0] - 0x80;
      if k == 0 || k > 4 then Fail
      else
        match GetUint(s[1..], k)
        case Fail => Fail
        case Ok(n, rest) => if n < 128 || n < Limit(k - 1) then Fail else Ok(n, rest)
  }

  /** CBS_get_any_asn1. */
  function GetAny(s: bytes): (r: Read<(byte, bytes)>)
    ensures r.Ok? ==> |r.rest| < |s|
  {
    if s == [] || s[0] % 32 == 31 then Fail
    else
      match GetLength(s[1..])
      case Fail => Fail
      case Ok(n, rest) =>
        match GetBytes(rest, n)
        case Fail => Fail
        case Ok(body, after) => Ok((s[0], body), after)
  }

  /** CBS_get_asn1. */
  function GetAsn1(s: bytes, tag: byte): (r: Read<bytes>)
    ensures r.Ok? ==> |r.rest| < |s|
  {
    match GetAny(s)
    case Fail => Fail
    case Ok((t, body), rest) => if t == tag then Ok(body, rest) else Fail
  }

  lemma LengthBack(n: nat, rest: bytes)
    requires n <= MAX_BODY
    ensures GetLength(LengthBytes(n) + rest) == Ok(n, rest)
  {
    if n > 0x7f {
      var k := LengthSize(n);
      LengthSizeFits(n);
      GetPut(n, k, rest);
      hide Put, GetUint, Limit;
      assert (LengthBytes(n) + rest)[1..] == Put(n, k) + rest;
    }
  }

  lemma LengthSizeFits(n: nat)
    requires 0x7f < n <= MAX_BODY
    ensures Limit(LengthSize(n) - 1) <= n < Limit(LengthSize(n))
  {
    Limits();
  }

  lemma ElementBack(tag: byte, body: bytes, rest: bytes)
    requires tag % 32 != 31 && |body| <= MAX_BODY
    ensures GetAny(Element(tag, body) + rest) == Ok((tag, body), rest)
    ensures GetAsn1(Element(tag, body) + rest, tag) == Ok(body, rest)
  {
    LengthBack(|body|, body + rest);
    GetBytesOf(body, rest);
    ElementParts(tag, body, rest);
    hide GetLength, LengthBytes, GetBytes, Element;
  }

  lemma ElementParts(tag: byte, body: bytes, rest: bytes)
    ensures var s := Element(tag, body) + rest;
            s != [] && s[0] == tag && s[1..] == LengthBytes(|body|) + (body + rest)
  {
    hide LengthBytes;
    var l := LengthBytes(|body|);
    assert [tag] + (l + body) + rest == [tag] + (l + (body + rest));
  }

  lemma WholeElementBack(tag: byte, body: bytes)
    requires tag % 32 != 31 && |body| <= MAX_BODY
    ensures GetAsn1(Element(tag, body), tag) == Ok(body, [])
  {
    ElementBack(tag, body, []);
    assert Element(tag, body) + [] == Element(tag, body);
  }

  // ---------- Integers ----------

  /** Bytes a number takes without leading zeros. */
  function ByteLength(n: nat): nat {
    if n == 0 then 0 else 1 + ByteLength(n / 256)
  }

  /** The body of CBB_add_asn1_uint64: no leading zero but one that keeps the
      number from looking negative. */
  function IntegerBody(n: nat): bytes {
    var s := Put(n, ByteLength(n));
    if s == [] || s[0] >= 0x80 then [0] + s else s
  }

  function Integer(n: nat): bytes { Element(INTEGER, IntegerBody(n)) }

  /** CBS_is_unsigned_asn1_integer and the reading of 64 bits. */
  function ParseInteger(body: bytes): Option<nat> {
    if body == [] || body[0] >= 0x80 then None
    else if |body| > 1 && body[0] == 0 && body[1] < 0x80 then None
    else if Val(body) >= Limit(8) then None
    else Some(Val(body))
  }

  function GetInteger(s: bytes): Read<nat> {
    match GetAsn1(s, INTEGER)
    case Fail => Fail
    case Ok(body, rest) =>
      match ParseInteger(body)
      case None => Fail
      case Some(n) => Ok(n, rest)
  }

  lemma {:induction false} ByteLengthFits(n: nat)
    ensures n < Limit(ByteLength(n))
    ensures n > 0 ==> Put(n, ByteLength(n)) != [] && Put(n, ByteLength(n))[0] > 0
  {
    if n > 0 { ByteLengthFits(n / 256); }
  }

  lemma {:induction false} ByteLengthSmall(n: nat, k: nat)
    requires n < Limit(k)
    ensures ByteLength(n) <= k
  {
    if n > 0 { ByteLengthSmall(n / 256, k - 1); }
  }

  lemma {:induction false} LeadingZero(s: bytes)
    ensures Val([0] + s) == Val(s)
  {
    if s != [] {
      assert ([0] + s)[..|s|] == [0] + s[..|s| - 1];
      LeadingZero(s[..|s| - 1]);
    }
  }

  lemma IntegerBodyBack(n: nat)
    requires n < Limit(8)
    ensures ParseInteger(IntegerBody(n)) == Some(n) && |IntegerBody(n)| <= 9
  {
    var s := Put(n, ByteLength(n));
    ByteLengthFits(n);
    ByteLengthSmall(n, 8);
    ValPut(n, ByteLength(n));
    LeadingZero(s);
  }

  lemma IntegerBack(n: nat, rest: bytes)
    requires n < Limit(8)
    ensures GetInteger(Integer(n) + rest) == Ok(n, rest)
  {
    IntegerBodyBack(n);
    ElementBack(INTEGER, IntegerBody(n), rest);
  }

  // ---------- Octet strings and booleans ----------

  function OctetString(s: bytes): bytes { Element(OCTET_STRING, s) }

  function Boolean(b: bool): bytes { Element(BOOLEAN, [if b then 0xff else 0]) }

  /** An octet string that is all there is. */
  function ParseOctets(s: bytes): Option<bytes> {
    match GetAsn1(s, OCTET_STRING)
    case Fail => None
    case Ok(body, rest) => if rest == [] then Some(body) else None
  }

  /** An integer that is all there is, at most max. */
  function ParseUint(s: bytes, max: nat): Option<nat> {
    match GetInteger(s)
    case Fail => None
    case Ok(n, rest) => if rest == [] && n <= max then Some(n) else None
  }

  function ParseBool(s: bytes): Option<bool> {
    match GetAsn1(s, BOOLEAN)
    case Fail => None
    case Ok(body, rest) =>
      if |body| != 1 || rest != [] then None
      else if body[0] == 0 then Some(false)
      else if body[0] == 0xff then Some(true)
      else None
  }

  lemma OctetsBack(s: bytes)
    requires |s| <= MAX_BODY
    ensures ParseOctets(OctetString(s)) == Some(s)
  {
    WholeElementBack(OCTET_STRING, s);
  }

  lemma UintBack(n: nat, max: nat)
    requires n <= max && n < Limit(8)
    ensures ParseUint(Integer(n), max) == Some(n)
  {
    IntegerBack(n, []);
    assert Integer(n) + [] == Integer(n);
  }

  lemma BoolBack(b: bool)
    ensures ParseBool(Boolean(b)) == Some(b)
  {
    WholeElementBack(BOOLEAN, [if b then 0xff else 0]);
  }

  // ---------- Optional fields in tag order ----------

  /** The identifier of an explicit, context-specific tag. */
  function Explicit(tag: nat): byte
    requires tag <= 30
  {
    0xa0 + tag
  }

  type Tag = t: nat | t <= 30

  predicate Ascending(tags: seq<Tag>) {
    forall i, j | 0 <= i < j < |tags| :: tags[i] < tags[j]
  }

  /** The fields that are present, in the order of their tags. */
  function EncodeFields(tags: seq<Tag>, fields: seq<Option<bytes>>): bytes
    requires |fields| == |tags|
  {
    if tags == [] then []
    else EncodeField(tags[0], fields[0]) + EncodeFields(tags[1..], fields[1..])
  }

  /** CBS_get_optional_asn1: the next element, if it has the tag. */
  function GetOptional(s: bytes, tag: Tag): (r: Read<Option<bytes>>)
  {
    if s == [] || s[0] != Explicit(tag) then Ok(None, s)
    else
      match GetAsn1(s, Explicit(tag))
      case Fail => Fail
      case Ok(body, rest) => Ok(Some(body), rest)
  }

  /** All optional fields, one after the other. */
  function GetFields(s: bytes, tags: seq<Tag>): (r: Read<seq<Option<bytes>>>)
    ensures r.Ok? ==> |r.value| == |tags|
  {
    if tags == [] then Ok([], s)
    else
      match GetOptional(s, tags[0])
      case Fail => Fail
      case Ok(x, rest) =>
        match GetFields(rest, tags[1..])
        case Fail => Fail
        case Ok(xs, after) => Ok([x] + xs, after)
  }

  predicate FieldsFit(fields: seq<Option<bytes>>) {
    forall i | 0 <= i < |fields| && fields[i].Some? :: |fields[i].value| <= MAX_BODY
  }

  /** What encoded fields begin with, if with anything. */
  lemma {:induction false} FirstTag(tags: seq<Tag>, fields: seq<Option<bytes>>, low: nat)
    requires |fields| == |tags| && forall i | 0 <= i < |tags| :: low < tags[i]
    ensures var s := EncodeFields(tags, fields); s == [] || s[0] > 0xa0 + low
  {
    if tags != [] && fields[0].None? { FirstTag(tags[1..], fields[1..], low); }
  }

  function EncodeField(tag: Tag, field: Option<bytes>): bytes {
    if field.Some? then Element(Explicit(tag), field.value) else []
  }

  /** A field is found if it is there, and missed if what follows has a higher
      tag. */
  lemma OptionalBack(tag: Tag, field: Option<bytes>, rest: bytes)
    requires field.Some? ==> |field.value| <= MAX_BODY
    requires rest == [] || rest[0] > Explicit(tag)
    ensures GetOptional(EncodeField(tag, field) + rest, tag) == Ok(field, rest)
  {
    hide GetAsn1, Element;
    if field.Some? {
      ElementBack(Explicit(tag), field.value, rest);
      ElementParts(Explicit(tag), field.value, rest);
    } else {
      assert [] + rest == rest;
    }
  }

  /** Because present fields come in ascending order, asking for each tag in turn
      finds exactly the fields that are there. */
  lemma {:induction false} FieldsBack(tags: seq<Tag>, fields: seq<Option<bytes>>)
    requires |fields| == |tags| && Ascending(tags) && FieldsFit(fields)
    ensures GetFields(EncodeFields(tags, fields), tags) == Ok(fields, [])
  {
    hide GetOptional, EncodeField;
    if tags != [] {
      assert FieldsFit(fields[1..]) && Ascending(tags[1..]);
      FieldsBack(tags[1..], fields[1..]);
      FirstTag(tags[1..], fields[1..], tags[0]);
      OptionalBack(tags[0], fields[0], EncodeFields(tags[1..], fields[1..]));
      assert [fields[0]] + fields[1..] == fields;
    } else {
      assert fields == [];
    }
  }

  // ---------- Sequences of elements ----------

  /** Exactly one element. */
  predicate IsElement(s: bytes) {
    GetAny(s).Ok? && GetAny(s).rest == []
  }

  /** The elements a byte string is made of. */
  function SplitElements(s: bytes): Option<seq<bytes>>
    decreases |s|
  {
    if s == [] then Some([])
    else
      match GetAny(s)
      case Fail => None
      case Ok(_, rest) =>
        match SplitElements(rest)
        case None => None
        case Some(xs) => Some([s[..|s| - |rest|]] + xs)
  }

  /** Reading an element looks no further than its end. */
  lemma ElementThen(x: bytes, rest: bytes)
    requires IsElement(x)
    ensures GetAny(x + rest).Ok? && GetAny(x + rest).rest == rest
  {
    var s := x + rest;
    LengthThen(x[1..], rest);
    assert s[1..] == x[1..] + rest;
    var n := GetLength(x[1..]).value;
    var y := GetLength(x[1..]).rest;
    assert y[n..] == [] && |y| == n;
    GetBytesOf(y, rest);
  }

  lemma LengthThen(s: bytes, rest: bytes)
    requires GetLength(s).Ok?
    ensures GetLength(s + rest) == Ok(GetLength(s).value, GetLength(s).rest + rest)
  {
    if s[0] >= 0x80 {
      var k := s[0] - 0x80;
      var t := s[1..];
      assert (s + rest)[1..] == t + rest;
      assert (t + rest)[..k] == t[..k] && (t + rest)[k..] == t[k..] + rest;
    } else {
      assert (s + rest)[1..] == s[1..] + rest;
    }
  }

  lemma {:induction false} SplitBack(xs: seq<bytes>)
    requires forall i | 0 <= i < |xs| :: IsElement(xs[i])
    ensures SplitElements(Flatten(xs)) == Some(xs)
  {
    hide GetAny;
    if xs != [] {
      var rest := Flatten(xs[1..]);
      assert IsElement(xs[0]);
      ElementThen(xs[0], rest);
      SplitBack(xs[1..]);
      var s := xs[0] + rest;
      assert s[..|s| - |rest|] == xs[0];
      assert [xs[0]] + xs[1..] == xs;
      NotEmpty(xs[0]);
    }
  }

  lemma NotEmpty(x: bytes)
    requires IsElement(x)
    ensures x != []
  {}

  /** The loop over the certificate chain. */
  method SplitChain(chain: bytes) returns (certs: Option<seq<bytes>>)
    ensures certs == SplitElements(chain)
  {
    hide GetAny;
    var cbs, out: seq<bytes> := chain, [];
    ghost var whole := SplitElements(chain);
    if whole.Some? { assert out + whole.value == whole.value; }
    while |cbs| > 0
      invariant SplitElements(chain) == (if SplitElements(cbs).None? then None else Some(out + SplitElements(cbs).value))
      decreases |cbs|
    {
      var x := GetAny(cbs);
      if x.Fail? {
        return None;
      }
      var cert := cbs[..|cbs| - |x.rest|];
      ghost var tail := SplitElements(x.rest);
      if tail.Some? { assert out + ([cert] + tail.value) == out + [cert] + tail.value; }
      out := out + [cert];
      cbs := x.rest;
    }
    assert out + [] == out;
    return Some(out);
  }
}
