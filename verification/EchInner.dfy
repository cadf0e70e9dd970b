/** Which bytes are a ClientHello, and which ClientHello the server takes for the
    inner one of Encrypted ClientHello: told by the fields, the extensions and the
    versions it lists (draft-ietf-tls-esni-13, section 7.1). */
module EchInner {
  import opened Bytes
  import opened Extensions
  import opened HelloWriter
  import opened EchHello

  // ---------- A ClientHello ----------

  /** The fields have the sizes a ClientHello allows. */
  predicate Sized(h: Hello) {
    && |h.random| == 32 && |h.sessionId| <= 32
    && 2 <= |h.ciphers| < 0x1_0000 && |h.ciphers| % 2 == 0
    && 1 <= |h.compression| < 0x100 && |h.exts| < 0x1_0000
  }

  /** The extensions are a list in which no type occurs twice. */
  predicate ExtsOk(exts: bytes) { Parse(exts).Some? && Distinct(Types(Parse(exts).value)) }

  /** What is written for such fields is read back if the extensions are in order,
      and is not read otherwise. */
  lemma WrittenReads(h: Hello, rest: bytes)
    requires Sized(h)
    ensures ParseHello(WriteHello(h) + rest) == if ExtsOk(h.exts) then Ok(h, rest) else Fail
  {
    Limits();
    if ExtsOk(h.exts) {
      ParseWrite(h, rest);
    } else {
      BadRest(h, rest);
      var s3 := PutPrefixed(h.ciphers, 2) + (PutPrefixed(h.compression, 1) + (PutPrefixed(h.exts, 2) + rest));
      GetPut(h.version, 2, h.random + (PutPrefixed(h.sessionId, 1) + s3));
      GetBytesOf(h.random, PutPrefixed(h.sessionId, 1) + s3);
      GetPutPrefixed(h.sessionId, 1, s3);
      hide Put, GetUint, GetBytes, GetPrefixed, PutPrefixed, ParseRest, ExtsOk;
      Regroup(Put(h.version, 2), h.random, PutPrefixed(h.sessionId, 1), PutPrefixed(h.ciphers, 2),
              PutPrefixed(h.compression, 1), PutPrefixed(h.exts, 2), rest);
    }
  }

  lemma BadRest(h: Hello, rest: bytes)
    requires Sized(h) && !ExtsOk(h.exts)
    ensures ParseRest(h.version, h.random, h.sessionId,
                      PutPrefixed(h.ciphers, 2) + (PutPrefixed(h.compression, 1) + (PutPrefixed(h.exts, 2) + rest))) == Fail
  {
    Limits();
    GetPutPrefixed(h.ciphers, 2, PutPrefixed(h.compression, 1) + (PutPrefixed(h.exts, 2) + rest));
    GetPutPrefixed(h.compression, 1, PutPrefixed(h.exts, 2) + rest);
    GetPutPrefixed(h.exts, 2, rest);
    assert |PutPrefixed(h.exts, 2)| >= 2;
    hide Parse, GetPrefixed, PutPrefixed, Types, Distinct;
    assert PutPrefixed(h.exts, 2) + rest != [];
  }

  /** Whatever is read as a ClientHello has such fields and is what is written for
      them, except that a hello may end before its extensions if there are none. */
  lemma ReadIsHello(s: bytes)
    requires ParseHello(s).Ok?
    ensures var r := ParseHello(s);
            && Sized(r.value) && ExtsOk(r.value.exts)
            && (s == WriteHello(r.value) + r.rest || (r.value.exts == [] && r.rest == [] && s == WriteWithout(r.value)))
  {
    hide ParseHello, ParseRest, WriteHello, ExtsOk, Put, PutPrefixed;
    var s3 := ReadFront(s);
    var r := ParseHello(s);
    var h := r.value;
    ReadIsRest(h.version, h.random, h.sessionId, s3);
    Together(h, r.rest);
  }

  lemma Together(h: Hello, rest: bytes)
    ensures WriteHello(h) + rest ==
            Put(h.version, 2) + (h.random + (PutPrefixed(h.sessionId, 1) +
            (PutPrefixed(h.ciphers, 2) + (PutPrefixed(h.compression, 1) + (PutPrefixed(h.exts, 2) + rest)))))
  {
    hide Put, PutPrefixed;
    Regroup(Put(h.version, 2), h.random, PutPrefixed(h.sessionId, 1), PutPrefixed(h.ciphers, 2),
            PutPrefixed(h.compression, 1), PutPrefixed(h.exts, 2), rest);
  }

  /** Version, random and session ID. */
  lemma ReadFront(s: bytes) returns (s3: bytes)
    requires ParseHello(s).Ok?
    ensures var h := ParseHello(s).value;
            && s == Put(h.version, 2) + (h.random + (PutPrefixed(h.sessionId, 1) + s3))
            && |h.random| == 32 && |h.sessionId| <= 32
            && ParseRest(h.version, h.random, h.sessionId, s3) == ParseHello(s)
  {
    var s1 := GetUint(s, 2).rest;
    var s2 := GetBytes(s1, 32).rest;
    s3 := GetPrefixed(s2, 1).rest;
    PutGet(s, 2);
    PutGetPrefixed(s2, 1);
    Limits();
    assert s1 == s1[..32] + s2;
    RestFields(GetUint(s, 2).value, s1[..32], GetPrefixed(s2, 1).value, s3);
    hide Put, GetUint, GetPrefixed, PutPrefixed, ParseRest;
  }

  lemma RestFields(version: u16, random: bytes, sessionId: bytes, s: bytes)
    ensures var r := ParseRest(version, random, sessionId, s);
            r.Ok? ==> r.value.version == version && r.value.random == random && r.value.sessionId == sessionId
  {
    hide GetPrefixed, Parse, Distinct;
  }

  lemma ReadIsRest(version: u16, random: bytes, sessionId: bytes, s: bytes)
    requires ParseRest(version, random, sessionId, s).Ok?
    ensures var r := ParseRest(version, random, sessionId, s);
            var h := r.value;
            && h == Hello(version, random, sessionId, h.ciphers, h.compression, h.exts)
            && 2 <= |h.ciphers| < 0x1_0000 && |h.ciphers| % 2 == 0 && 1 <= |h.compression| < 0x100 && |h.exts| < 0x1_0000
            && ExtsOk(h.exts)
            && (s == PutPrefixed(h.ciphers, 2) + (PutPrefixed(h.compression, 1) + (PutPrefixed(h.exts, 2) + r.rest))
                || (h.exts == [] && r.rest == [] && s == PutPrefixed(h.ciphers, 2) + PutPrefixed(h.compression, 1)))
  {
    Limits();
    PutGetPrefixed(s, 2);
    var s1 := GetPrefixed(s, 2).rest;
    PutGetPrefixed(s1, 1);
    var s2 := GetPrefixed(s1, 1).rest;
    if s2 == [] {
      assert PutPrefixed(GetPrefixed(s1, 1).value, 1) + [] == PutPrefixed(GetPrefixed(s1, 1).value, 1);
    } else {
      PutGetPrefixed(s2, 2);
    }
    hide PutPrefixed, GetPrefixed, Distinct;
  }

  // ---------- Versions ----------

  /** SSL 3.0 to TLS 1.2, and DTLS 1.0 and 1.2. */
  predicate OldVersion(v: u16) {
    v == 0x0300 || v == 0x0301 || v == 0x0302 || v == 0x0303 || v == 0xfeff || v == 0xfefd
  }

  predicate NoOld(vs: seq<u16>) { forall i | 0 <= i < |vs| :: !OldVersion(vs[i]) }

  /** A list of versions passes if and only if none of them is old. */
  lemma {:induction false} VersionsExact(vs: seq<u16>)
    ensures VersionsOk(TypeList(vs)) <==> NoOld(vs)
  {
    hide Put, GetUint;
    if vs != [] {
      Limits();
      GetPut(vs[0], 2, TypeList(vs[1..]));
      assert |Put(vs[0], 2)| == 2;
      VersionsExact(vs[1..]);
      assert forall i | 0 <= i < |vs[1..]| :: vs[1..][i] == vs[i + 1];
    }
  }

  /** Nothing but a list of versions passes. */
  lemma {:induction false} VersionsAre(b: bytes) returns (vs: seq<u16>)
    requires VersionsOk(b)
    ensures b == TypeList(vs)
    decreases |b|
  {
    if b == [] {
      vs := [];
    } else {
      PutGet(b, 2);
      Limits();
      var rest := VersionsAre(GetUint(b, 2).rest);
      vs := [GetUint(b, 2).value] + rest;
    }
  }

  /** The body of a supported_versions extension: a length, and at least one
      version, none of them old. */
  predicate Lists(body: bytes, vs: seq<u16>) {
    1 <= |vs| <= 127 && body == [2 * |vs|] + TypeList(vs) && NoOld(vs)
  }

  ghost predicate NewVersions(body: bytes) { exists vs: seq<u16> :: Lists(body, vs) }

  /** The code's test of it. */
  predicate VersionsTest(x: bytes) {
    match GetPrefixed(x, 1)
    case Fail => false
    case Ok(versions, after) => after == [] && versions != [] && VersionsOk(versions)
  }

  lemma {:induction false} ListLength(vs: seq<u16>)
    ensures |TypeList(vs)| == 2 * |vs|
  {
    if vs != [] { ListLength(vs[1..]); }
  }

  lemma TestExact(x: bytes)
    ensures VersionsTest(x) <==> NewVersions(x)
  {
    Limits();
    if VersionsTest(x) {
      PutGetPrefixed(x, 1);
      var versions := GetPrefixed(x, 1).value;
      var vs := VersionsAre(versions);
      ListLength(vs);
      VersionsExact(vs);
      assert Put(|versions|, 1) == [|versions|];
      assert x == PutPrefixed(versions, 1);
      assert Lists(x, vs);
    }
    if NewVersions(x) {
      var vs: seq<u16> :| Lists(x, vs);
      ListLength(vs);
      VersionsExact(vs);
      GetPutPrefixed(TypeList(vs), 1, []);
      assert Put(2 * |vs|, 1) == [2 * |vs|];
      assert PutPrefixed(TypeList(vs), 1) + [] == x;
    }
  }

  // ---------- The inner hello ----------

  ghost predicate Marked(x: Ext) { x == Ext(0xfe0d, [1]) }

  ghost predicate Versioned(x: Ext) { x.typ == 43 && NewVersions(x.body) }

  /** The hello says it is an inner one, and offers something newer than TLS 1.2 and
      nothing older. */
  ghost predicate OffersInner(xs: seq<Ext>) {
    (exists i :: 0 <= i < |xs| && Marked(xs[i])) && (exists i :: 0 <= i < |xs| && Versioned(xs[i]))
  }

  /** The body of the extension of a type that is there. */
  lemma Lookup(xs: seq<Ext>, i: nat)
    requires Fit(xs) && Distinct(Types(xs)) && i < |xs|
    ensures match Find(Encode(xs), xs[i].typ)
            case None => false
            case Some((_, body, _)) => body == xs[i].body
  {
    hide Encode, EncodeExt, Find, Types, Distinct;
    var (a, x, b) := (xs[..i], xs[i], xs[i + 1..]);
    NotBefore(xs, i);
    assert Fit(a) && ExtFits(x);
    SplitAt(xs, i);
    FindIn(a, x, b);
  }

  lemma SplitAt(xs: seq<Ext>, i: nat)
    requires i < |xs|
    ensures Encode(xs) == Encode(xs[..i]) + (EncodeExt(xs[i]) + Encode(xs[i + 1..]))
  {
    hide EncodeExt;
    var tail := xs[i..];
    assert Encode(tail) == EncodeExt(xs[i]) + Encode(xs[i + 1..]) by { assert tail[1..] == xs[i + 1..]; }
    hide Encode;
    assert xs == xs[..i] + tail;
    EncodeAppend(xs[..i], tail);
  }

  lemma NotBefore(xs: seq<Ext>, i: nat)
    requires Distinct(Types(xs)) && i < |xs|
    ensures xs[i].typ !in Types(xs[..i])
  {
    hide Types;
    var ts := Types(xs[..i]);
    forall j | 0 <= j < |ts| ensures ts[j] != xs[i].typ {
      assert ts[j] == xs[j].typ == Types(xs)[j] && Types(xs)[i] == xs[i].typ;
    }
  }

  /** The two tests of the code on the extension of a type, if it is there. */
  lemma MarkedExact(xs: seq<Ext>)
    requires Fit(xs) && Distinct(Types(xs))
    ensures (match Find(Encode(xs), 0xfe0d)
             case None => false
             case Some((_, ech, _)) => ech == [1])
            <==> exists i :: 0 <= i < |xs| && Marked(xs[i])
  {
    if 0xfe0d in Types(xs) {
      var i :| 0 <= i < |xs| && Types(xs)[i] == 0xfe0d;
      Lookup(xs, i);
      assert Marked(xs[i]) <==> xs[i].body == [1];
      forall j | 0 <= j < |xs| && Marked(xs[j]) ensures i == j { assert Types(xs)[j] == 0xfe0d; }
    } else {
      FindAbsent(xs, 0xfe0d);
      forall j | 0 <= j < |xs| ensures !Marked(xs[j]) { assert Types(xs)[j] == xs[j].typ; }
    }
  }

  lemma VersionedExact(xs: seq<Ext>)
    requires Fit(xs) && Distinct(Types(xs))
    ensures (match Find(Encode(xs), 43)
             case None => false
             case Some((_, x, _)) => VersionsTest(x))
            <==> exists i :: 0 <= i < |xs| && Versioned(xs[i])
  {
    if 43 in Types(xs) {
      var i :| 0 <= i < |xs| && Types(xs)[i] == 43;
      Lookup(xs, i);
      TestExact(xs[i].body);
      hide VersionsTest, NewVersions;
      assert Versioned(xs[i]) <==> NewVersions(xs[i].body);
      forall j | 0 <= j < |xs| && Versioned(xs[j]) ensures i == j { assert Types(xs)[j] == 43; }
    } else {
      FindAbsent(xs, 43);
      forall j | 0 <= j < |xs| ensures !Versioned(xs[j]) { assert Types(xs)[j] == xs[j].typ; }
    }
  }

  /** Of the hellos that can be written, the server takes exactly those for an inner
      hello in which no type of extension occurs twice, that are marked by an
      encrypted_client_hello of the one byte 1, and that list a version, but none up
      to TLS 1.2. */
  lemma ValidExact(h: Hello, xs: seq<Ext>)
    requires Sized(h.(exts := Encode(xs))) && Fit(xs)
    ensures ValidInner(WriteHello(h.(exts := Encode(xs)))) <==> Distinct(Types(xs)) && OffersInner(xs)
  {
    var body := WriteHello(h.(exts := Encode(xs)));
    ParseEncode(xs);
    WrittenReads(h.(exts := Encode(xs)), []);
    assert body + [] == body;
    hide ParseHello, WriteHello, Find, Parse, Encode, Types, Distinct, Marked, Versioned;
    assert ExtsOk(Encode(xs)) <==> Distinct(Types(xs));
    if Distinct(Types(xs)) {
      MarkedExact(xs);
      VersionedExact(xs);
      ValidMeans(h.(exts := Encode(xs)), body);
    }
  }

  lemma ValidMeans(h: Hello, body: bytes)
    requires ParseHello(body) == Ok(h, [])
    ensures ValidInner(body) <==>
              && (match Find(h.exts, 0xfe0d)
                  case None => false
                  case Some((_, ech, _)) => ech == [1])
              && (match Find(h.exts, 43)
                  case None => false
                  case Some((_, x, _)) => VersionsTest(x))
  {
    hide ParseHello, Find, GetPrefixed, VersionsOk;
  }

  // ---------- Among the extensions a table writes ----------

  predicate Writes(x: Entry, e: Ext) { e == Ext(x.typ, e.body) && (x.inner == Plain(e.body) || x.inner == Compressed(e.body)) }

  /** An entry of the table marks an inner hello, and one lists versions for it of
      which none is old. */
  ghost predicate TableOffers(t: seq<Entry>) {
    && (exists i, e :: 0 <= i < |t| && Writes(t[i], e) && Marked(e))
    && (exists i, e :: 0 <= i < |t| && Writes(t[i], e) && Versioned(e))
  }

  /** Not what the writer adds: GREASE and the pre_shared_key. */
  predicate OfTable(e: Ext) { e.typ == 0xfe0d || e.typ == 43 }

  predicate PlaceWrites(t: seq<Entry>, order: seq<nat>, k: nat, e: Ext)
    requires IsOrder(order, |t|) && k < |t|
  {
    Writes(t[order[k]], e)
  }

  lemma {:induction false} InLists(t: seq<Entry>, order: seq<nat>, k: nat, e: Ext)
    requires IsOrder(order, |t|) && k <= |t|
    ensures (e in PlainOf(t, order, k) || e in CompressedOf(t, order, k)) <==> exists j: nat | j < k :: PlaceWrites(t, order, j, e)
  {
    if k > 0 {
      InLists(t, order, k - 1, e);
      hide IsOrder;
      assert PlaceWrites(t, order, k - 1, e) <==> e in ListedPlain(t[order[k - 1]]) || e in ListedCompressed(t[order[k - 1]]);
      hide Writes;
      if exists j: nat | j < k - 1 :: PlaceWrites(t, order, j, e) {
        var j: nat :| j < k - 1 && PlaceWrites(t, order, j, e);
        assert PlaceWrites(t, order, j, e);
      }
    }
  }

  /** Whatever the order, the real extensions are those the table writes, the two of
      GREASE and the pre_shared_key. */
  lemma InReal(t: seq<Entry>, order: seq<nat>, g: Greases, psk: Option<bytes>, e: Ext)
    requires IsOrder(order, |t|) && GreaseOk(g) && OfTable(e)
    ensures e in RealExts(t, order, g, psk) <==> exists i :: 0 <= i < |t| && Writes(t[i], e)
  {
    InLists(t, order, |t|, e);
    NotAdded(g, psk, e);
    hide PlainOf, CompressedOf, GreaseFirst, GreaseLast, Psk, GreaseOk, OfTable, Writes;
    assert e in RealExts(t, order, g, psk) <==> e in PlainOf(t, order, |t|) || e in CompressedOf(t, order, |t|);
    if i :| 0 <= i < |t| && Writes(t[i], e) {
      OrderIsOnto(order, |t|, i);
      var j :| 0 <= j < |order| && order[j] == i;
      assert PlaceWrites(t, order, j, e);
    }
    hide IsOrder;
  }

  lemma NotAdded(g: Greases, psk: Option<bytes>, e: Ext)
    requires GreaseOk(g) && OfTable(e)
    ensures e !in GreaseFirst(g) && e !in GreaseLast(g) && e !in Psk(psk)
  {}

  lemma RealOffers(t: seq<Entry>, order: seq<nat>, g: Greases, psk: Option<bytes>)
    requires IsOrder(order, |t|) && GreaseOk(g)
    ensures OffersInner(RealExts(t, order, g, psk)) <==> TableOffers(t)
  {
    var xs := RealExts(t, order, g, psk);
    forall e: Ext | OfTable(e) ensures e in xs <==> exists i :: 0 <= i < |t| && Writes(t[i], e) { InReal(t, order, g, psk, e); }
    hide RealExts, IsOrder, GreaseOk, Writes, NewVersions;
    forall i | 0 <= i < |xs| && (Marked(xs[i]) || Versioned(xs[i]))
      ensures exists k :: 0 <= k < |t| && Writes(t[k], xs[i])
    {
      assert OfTable(xs[i]) && xs[i] in xs;
    }
    forall k, e: Ext | 0 <= k < |t| && Writes(t[k], e) && (Marked(e) || Versioned(e))
      ensures exists i :: 0 <= i < |xs| && xs[i] == e
    {
      assert OfTable(e) && e in xs;
    }
  }
}
