/** The client's two writers and the server's decoder agree: what the decoder
    makes of the encoded inner hello and the outer hello is the inner hello. */
module EchRoundTrip {
  import opened Bytes
  import opened Extensions
  import opened HelloWriter
  import opened HelloTypes
  import opened EchHello
  import opened EchInner

  // ---------- Subsequences ----------

  /** The types of ts occur among those of os in this order. */
  predicate TypeSub(ts: seq<u16>, os: seq<u16>) {
    ts == [] || (os != [] && ((ts[0] == os[0] && TypeSub(ts[1..], os[1..])) || TypeSub(ts, os[1..])))
  }

  /** As above, by places. */
  predicate Places(ts: seq<u16>, os: seq<u16>, at: seq<nat>) {
    && |at| == |ts|
    && (forall i | 0 <= i < |at| :: at[i] < |os| && os[at[i]] == ts[i])
    && (forall i, j | 0 <= i < j < |at| :: at[i] < at[j])
  }

  lemma {:induction false} SubHasPlaces(ts: seq<u16>, os: seq<u16>) returns (at: seq<nat>)
    requires TypeSub(ts, os)
    ensures Places(ts, os, at)
  {
    if ts == [] {
      at := [];
    } else if ts[0] == os[0] && TypeSub(ts[1..], os[1..]) {
      var rest := SubHasPlaces(ts[1..], os[1..]);
      at := [0] + seq(|rest|, i requires 0 <= i < |rest| => rest[i] + 1);
    } else {
      var rest := SubHasPlaces(ts, os[1..]);
      at := seq(|rest|, i requires 0 <= i < |rest| => rest[i] + 1);
    }
  }

  lemma {:induction false} PlacesAreSub(ts: seq<u16>, os: seq<u16>, at: seq<nat>)
    requires Places(ts, os, at)
    ensures TypeSub(ts, os)
    decreases |os|
  {
    if ts != [] {
      if at[0] == 0 {
        var rest := seq(|at| - 1, i requires 0 <= i < |at| - 1 => if at[i + 1] > 0 then at[i + 1] - 1 else 0);
        assert forall i | 0 < i < |at| :: at[0] < at[i];
        PlacesAreSub(ts[1..], os[1..], rest);
      } else {
        var rest := seq(|at|, i requires 0 <= i < |at| => if at[i] > 0 then at[i] - 1 else 0);
        assert forall i | 0 < i < |at| :: at[0] < at[i];
        PlacesAreSub(ts, os[1..], rest);
      }
    }
  }

  lemma {:induction false} SubTail(ts: seq<u16>, os: seq<u16>)
    requires ts != [] && TypeSub(ts, os)
    ensures TypeSub(ts[1..], os)
    ensures os != [] && TypeSub(ts[1..], os[1..])
    decreases |os|
  {
    if !(ts[0] == os[0] && TypeSub(ts[1..], os[1..])) {
      SubTail(ts, os[1..]);
    } else if ts[1..] != [] {
      assert TypeSub(ts[1..], os);
    }
  }

  // ---------- The cursor finds exactly the subsequences ----------

  lemma {:induction false} ExpandSteps(ts: seq<u16>, os: seq<Ext>)
    requires Fit(os)
    ensures ts == [] ==> Expand(TypeList(ts), Encode(os)) == Fine([])
    ensures ts != [] && os == [] ==> Expand(TypeList(ts), Encode(os)) == Err(NotFound)
    ensures ts != [] && os != [] && ts[0] != os[0].typ ==>
              Expand(TypeList(ts), Encode(os)) == Expand(TypeList(ts), Encode(os[1..]))
    ensures ts != [] && os != [] && ts[0] == os[0].typ ==>
              Expand(TypeList(ts), Encode(os)) ==
              match Expand(TypeList(ts[1..]), Encode(os[1..]))
              case Err(e) => Err(e)
              case Fine(out) => Fine(EncodeExt(os[0]) + out)
  {
    hide GetExt, EncodeExt, GetUint, Put;
    if ts != [] {
      Limits();
      GetPut(ts[0], 2, TypeList(ts[1..]));
      assert TypeList(ts) != [] by { assert |Put(ts[0], 2)| == 2; }
      if os != [] {
        assert ExtFits(os[0]);
        GetEncodeExt(os[0], Encode(os[1..]));
        ExtNotEmpty(os[0]);
      }
    }
  }

  /** For every well-formed outer hello the list expands exactly when it is a
      subsequence of the outer types; otherwise some type is not found. */
  lemma {:induction false} ExpandExactly(ts: seq<u16>, os: seq<Ext>)
    requires Fit(os)
    ensures Expand(TypeList(ts), Encode(os)).Fine? <==> TypeSub(ts, Types(os))
    ensures !TypeSub(ts, Types(os)) ==> Expand(TypeList(ts), Encode(os)) == Err(NotFound)
    decreases |os|
  {
    hide Expand, Encode, TypeList, EncodeExt;
    ExpandSteps(ts, os);
    if ts != [] && os != [] {
      var rest := os[1..];
      assert Types(os)[1..] == Types(rest);
      ExpandExactly(ts[1..], rest);
      ExpandExactly(ts, rest);
      if ts[0] == os[0].typ && TypeSub(ts, Types(rest)) { SubTail(ts, Types(rest)); }
    }
  }

  /** By places: each type of the list is found behind the one before it. */
  lemma ExpandPlaces(ts: seq<u16>, os: seq<Ext>)
    requires Fit(os)
    ensures Expand(TypeList(ts), Encode(os)).Fine? <==> exists at :: Places(ts, Types(os), at)
  {
    ExpandExactly(ts, os);
    if TypeSub(ts, Types(os)) { var at := SubHasPlaces(ts, Types(os)); }
    hide Expand, TypeSub, Encode, TypeList;
    forall at | Places(ts, Types(os), at) ensures TypeSub(ts, Types(os)) { PlacesAreSub(ts, Types(os), at); }
  }

  /** The extensions of cs occur in os in this order. */
  predicate Sub(cs: seq<Ext>, os: seq<Ext>) {
    cs == [] || (os != [] && ((cs[0] == os[0] && Sub(cs[1..], os[1..])) || Sub(cs, os[1..])))
  }

  lemma {:induction false} SubMember(cs: seq<Ext>, os: seq<Ext>)
    requires cs != [] && Sub(cs, os)
    ensures cs[0].typ in Types(os)
    decreases |os|
  {
    if cs[0] == os[0] {
      assert Types(os)[0] == cs[0].typ;
    } else {
      SubMember(cs, os[1..]);
      assert Types(os)[1..] == Types(os[1..]);
    }
  }

  lemma DistinctRest(os: seq<Ext>)
    requires os != [] && Distinct(Types(os))
    ensures Distinct(Types(os[1..])) && os[0].typ !in Types(os[1..])
  {
    assert Types(os)[1..] == Types(os[1..]);
  }

  /** A subsequence of extensions, named by type, expands to itself. */
  lemma {:induction false} ExpandSub(cs: seq<Ext>, os: seq<Ext>)
    requires Fit(os) && Distinct(Types(os)) && Sub(cs, os)
    ensures Expand(TypeList(Types(cs)), Encode(os)) == Fine(Encode(cs))
    decreases |os|
  {
    ExpandSteps(Types(cs), os);
    if cs != [] {
      hide Expand, TypeList, EncodeExt, Distinct;
      assert Types(cs)[1..] == Types(cs[1..]);
      DistinctRest(os);
      if cs[0] == os[0] && Sub(cs[1..], os[1..]) {
        ExpandSub(cs[1..], os[1..]);
      } else {
        SubMember(cs, os[1..]);
        assert cs[0].typ != os[0].typ;
        ExpandSub(cs, os[1..]);
      }
    }
  }

  lemma {:induction false} SubNone(os: seq<Ext>)
    ensures Sub([], os)
  {}

  lemma {:induction false} SubJoin(a: seq<Ext>, b: seq<Ext>, c: seq<Ext>, d: seq<Ext>)
    requires Sub(a, b) && Sub(c, d)
    ensures Sub(a + c, b + d)
    decreases |b|
  {
    if b == [] {
      assert a + c == c && b + d == d;
    } else {
      assert (b + d)[1..] == b[1..] + d;
      if a != [] && a[0] == b[0] && Sub(a[1..], b[1..]) {
        assert (a + c)[1..] == a[1..] + c;
        SubJoin(a[1..], b[1..], c, d);
      } else {
        SubJoin(a, b[1..], c, d);
      }
    }
  }

  lemma {:induction false} SubItself(xs: seq<Ext>)
    ensures Sub(xs, xs)
  {
    if xs != [] { SubItself(xs[1..]); }
  }

  /** The compressed extensions of the table, in the order they share, are among
      those it writes into the outer hello. */
  lemma {:induction false} CompressedSub(t: seq<Entry>, order: seq<nat>, k: nat)
    requires TableOk(t) && IsOrder(order, |t|) && k <= |t|
    ensures Sub(CompressedOf(t, order, k), OuterOf(t, order, k))
  {
    if k > 0 {
      CompressedSub(t, order, k - 1);
      var x := t[order[k - 1]];
      assert Repeats(x);
      if x.inner.Compressed? { SubItself(Listed(x)); } else { SubNone(Listed(x)); }
      SubJoin(CompressedOf(t, order, k - 1), OuterOf(t, order, k - 1), ListedCompressed(x), Listed(x));
    }
  }

  lemma AllCompressedSub(t: seq<Entry>, order: seq<nat>, g: Greases, padding: nat, psk: Option<bytes>)
    requires TableOk(t) && IsOrder(order, |t|)
    ensures Sub(AllCompressed(t, order, g), OuterExts(t, order, g, padding, psk))
  {
    var n := |t|;
    CompressedSub(t, order, n);
    SubItself(GreaseFirst(g));
    SubItself(GreaseLast(g));
    SubNone(Pad(padding));
    SubNone(Psk(psk));
    hide Sub, CompressedOf, OuterOf, GreaseFirst, GreaseLast, Pad, Psk, TableOk;
    SubJoin(GreaseFirst(g), GreaseFirst(g), CompressedOf(t, order, n), OuterOf(t, order, n));
    var a, b := GreaseFirst(g) + CompressedOf(t, order, n), GreaseFirst(g) + OuterOf(t, order, n);
    SubJoin(a, b, GreaseLast(g), GreaseLast(g));
    SubJoin(a + GreaseLast(g), b + GreaseLast(g), [], Pad(padding));
    SubJoin(a + GreaseLast(g) + [], b + GreaseLast(g) + Pad(padding), [], Psk(psk));
    NoMore(a + GreaseLast(g));
    NoMore(a + GreaseLast(g) + []);
  }

  // ---------- The round trip ----------

  lemma ListFit(t: seq<Entry>, order: seq<nat>, g: Greases, padding: nat, psk: Option<bytes>)
    requires TableOk(t) && IsOrder(order, |t|)
    requires (psk.Some? ==> |psk.value| < Limit(2)) && padding < Limit(2)
    ensures Fit(PlainOf(t, order, |t|)) && Fit(AllCompressed(t, order, g)) && Fit(Psk(psk))
    ensures Fit(OuterExts(t, order, g, padding, psk))
  {
    ListFits(t, order, |t|, 0);
    ListFits(t, order, |t|, 1);
    ListFits(t, order, |t|, 2);
    SmallFit(g, padding, psk);
    hide TableOk, IsOrder, Fit, OuterOf, PlainOf, CompressedOf, GreaseFirst, GreaseLast, Pad, Psk;
    FitAround(GreaseFirst(g), CompressedOf(t, order, |t|), GreaseLast(g));
    FitAround(GreaseFirst(g), OuterOf(t, order, |t|), GreaseLast(g));
    FitAround(GreaseFirst(g) + OuterOf(t, order, |t|) + GreaseLast(g), Pad(padding), Psk(psk));
  }

  lemma SmallFit(g: Greases, padding: nat, psk: Option<bytes>)
    requires (psk.Some? ==> |psk.value| < Limit(2)) && padding < Limit(2)
    ensures Fit(GreaseFirst(g)) && Fit(GreaseLast(g)) && Fit(Pad(padding)) && Fit(Psk(psk))
  {
    Limits();
  }

  lemma FitAround(a: seq<Ext>, b: seq<Ext>, c: seq<Ext>)
    requires Fit(a) && Fit(b) && Fit(c)
    ensures Fit(a + b + c)
  {}

  lemma {:induction false} TypeListLength(types: seq<u16>)
    ensures |TypeList(types)| == 2 * |types|
  {
    if types != [] { TypeListLength(types[1..]); }
  }

  lemma {:induction false} CompressedCount(t: seq<Entry>, order: seq<nat>, k: nat)
    requires IsOrder(order, |t|) && k <= |t|
    ensures |CompressedOf(t, order, k)| <= k
  {
    if k > 0 { CompressedCount(t, order, k - 1); }
  }

  /** The list of types always fits its one-byte length: a table has at most 32
      entries, and there are two GREASE types. */
  lemma TypesShort(t: seq<Entry>, order: seq<nat>, g: Greases)
    requires TableOk(t) && IsOrder(order, |t|)
    ensures |TypeList(Types(AllCompressed(t, order, g)))| < Limit(1)
  {
    Limits();
    assert |t| <= MAX_ENTRIES;
    hide TableOk, IsOrder, TypeList, CompressedOf;
    CompressedCount(t, order, |t|);
    TypeListLength(Types(AllCompressed(t, order, g)));
  }

  /** Expanding the encoded inner hello's extensions yields the real ones. */
  lemma ExtensionsRoundTrip(t: seq<Entry>, order: seq<nat>, g: Greases, psk: Option<bytes>, padding: nat, outerPsk: Option<bytes>)
    requires TableOk(t) && IsOrder(order, |t|) && GreaseOk(g) && padding < Limit(2)
    requires (psk.Some? ==> |psk.value| < Limit(2)) && (outerPsk.Some? ==> |outerPsk.value| < Limit(2))
    ensures InnerExtensions(Encode(EncodedExts(t, order, g, psk)), Encode(OuterExts(t, order, g, padding, outerPsk)))
            == Fine(Encode(RealExts(t, order, g, psk)))
  {
    var (plain, xs, os) := (PlainOf(t, order, |t|), AllCompressed(t, order, g), OuterExts(t, order, g, padding, outerPsk));
    ListFit(t, order, g, 0, psk);
    ListFit(t, order, g, padding, outerPsk);
    EncodedTypesDistinct(t, order, g, psk);
    OuterTypesDistinct(t, order, g, padding, outerPsk);
    AllCompressedSub(t, order, g, padding, outerPsk);
    ExpandSub(xs, os);
    TypeListLength(Types(xs));
    TypesShort(t, order, g);
    if xs == [] {
      NothingCompressed(plain, psk);
    } else {
      SomeCompressed(plain, xs, psk, Encode(os));
    }
  }

  lemma NothingCompressed(plain: seq<Ext>, psk: Option<bytes>)
    requires Fit(plain) && Fit(Psk(psk))
    requires ECH_OUTER_EXTENSIONS !in Types(plain) && ECH_OUTER_EXTENSIONS !in Types(Psk(psk))
    ensures plain + Reference([]) + Psk(psk) == plain + [] + Psk(psk)
    ensures forall outer :: InnerExtensions(Encode(plain + Reference([]) + Psk(psk)), outer) == Fine(Encode(plain + [] + Psk(psk)))
  {
    var all := plain + [] + Psk(psk);
    assert all == plain + Psk(psk);
    TypesJoin(plain, Psk(psk));
    FindAbsent(all, ECH_OUTER_EXTENSIONS);
  }

  lemma TypesJoin(xs: seq<Ext>, ys: seq<Ext>)
    ensures Types(xs + ys) == Types(xs) + Types(ys)
  {}

  lemma SomeCompressed(plain: seq<Ext>, xs: seq<Ext>, psk: Option<bytes>, outer: bytes)
    requires Fit(plain) && ECH_OUTER_EXTENSIONS !in Types(plain) && xs != []
    requires 0 < |TypeList(Types(xs))| < Limit(1)
    requires Expand(TypeList(Types(xs)), outer) == Fine(Encode(xs))
    ensures InnerExtensions(Encode(plain + Reference(xs) + Psk(psk)), outer) == Fine(Encode(plain + xs + Psk(psk)))
  {
    Limits();
    var list := TypeList(Types(xs));
    var x := Ext(ECH_OUTER_EXTENSIONS, PutPrefixed(list, 1));
    assert ExtFits(x);
    FindIn(plain, x, Psk(psk));
    GetPutPrefixed(list, 1, []);
    assert PutPrefixed(list, 1) + [] == PutPrefixed(list, 1);
    hide Find, Expand, TypeList, Types, EncodeExt, PutPrefixed, GetPrefixed, Psk;
    assert Reference(xs) == [x];
    EncodeAppend(plain, [x]);
    EncodeAppend(plain + [x], Psk(psk));
    EncodeOne(x);
    EncodeAppend(plain, xs);
    EncodeAppend(plain + xs, Psk(psk));
    JoinTwo(Encode(plain), EncodeExt(x), Encode(Psk(psk)));
  }

  lemma JoinTwo(a: bytes, b: bytes, c: bytes)
    ensures a + b + c == a + (b + c)
  {}

  /** What the client sends, inside and outside. */
  function EncodedHello(h: Hello, t: seq<Entry>, order: seq<nat>, g: Greases, psk: Option<bytes>): Hello
    requires IsOrder(order, |t|)
  {
    h.(sessionId := [], exts := Encode(EncodedExts(t, order, g, psk)))
  }

  function RealHello(h: Hello, t: seq<Entry>, order: seq<nat>, g: Greases, psk: Option<bytes>): Hello
    requires IsOrder(order, |t|)
  {
    h.(exts := Encode(RealExts(t, order, g, psk)))
  }

  /** For every table, order, GREASE, PSK and padding: decoding the encoded inner
      hello, with any number of zero bytes behind it, against the outer hello
      written from the same state gives back exactly the real inner hello, if an
      entry of the table marks it as one and another lists versions of which none
      is older than TLS 1.3; and is refused otherwise. */
  lemma DecodeEncode(h: Hello, outer: Hello, t: seq<Entry>, order: seq<nat>, g: Greases,
                     psk: Option<bytes>, outerPsk: Option<bytes>, outerPadding: nat, zeros: nat)
    requires TableOk(t) && IsOrder(order, |t|) && GreaseOk(g) && outerPadding < Limit(2)
    requires (psk.Some? ==> |psk.value| < Limit(2)) && (outerPsk.Some? ==> |outerPsk.value| < Limit(2))
    requires |Encode(RealExts(t, order, g, psk))| < Limit(2) && |Encode(EncodedExts(t, order, g, psk))| < Limit(2)
    requires HelloOk(h.(exts := [])) && EncodedExts(t, order, g, psk) != []
    requires outer.sessionId == h.sessionId && outer.exts == Encode(OuterExts(t, order, g, outerPadding, outerPsk))
    ensures Decode(WriteHello(EncodedHello(h, t, order, g, psk)) + ZeroBytes(zeros), outer)
            == if TableOffers(t) then Fine(HelloMessage(RealHello(h, t, order, g, psk))) else Err(InvalidInner)
  {
    hide ParseHello, InnerExtensions, ValidInner, WriteHello, HelloMessage, HelloOk, Encode, EncodedExts, RealExts,
         OuterExts, TableOk, IsOrder, TypeList, Types, AllCompressed, Decode, ZeroBytes, GreaseOk, TableOffers;
    RealValid(h, t, order, g, psk);
    ExtensionsRoundTrip(t, order, g, psk, outerPadding, outerPsk);
    EncodedReads(h, t, order, g, psk, ZeroBytes(zeros));
    var e := EncodedHello(h, t, order, g, psk);
    DecodesTo(WriteHello(e) + ZeroBytes(zeros), e, outer, zeros, RealHello(h, t, order, g, psk).exts);
    assert e.(sessionId := outer.sessionId, exts := RealHello(h, t, order, g, psk).exts) == RealHello(h, t, order, g, psk);
  }

  /** The same for any seeds of the shuffle and of GREASE. */
  lemma DecodeEncodeSeeds(h: Hello, outer: Hello, t: seq<Entry>, seeds: seq<nat>, seed1: bv8, seed2: bv8,
                          psk: Option<bytes>, outerPsk: Option<bytes>, outerPadding: nat, zeros: nat)
    requires TableOk(t) && |seeds| + 1 == |t| && outerPadding < Limit(2)
    requires (psk.Some? ==> |psk.value| < Limit(2)) && (outerPsk.Some? ==> |outerPsk.value| < Limit(2))
    requires |Encode(RealExts(t, OrderOf(|t|, seeds), GreaseOf(seed1, seed2), psk))| < Limit(2)
    requires |Encode(EncodedExts(t, OrderOf(|t|, seeds), GreaseOf(seed1, seed2), psk))| < Limit(2)
    requires HelloOk(h.(exts := [])) && outer.sessionId == h.sessionId
    requires outer.exts == Encode(OuterExts(t, OrderOf(|t|, seeds), GreaseOf(seed1, seed2), outerPadding, outerPsk))
    ensures Decode(WriteHello(EncodedHello(h, t, OrderOf(|t|, seeds), GreaseOf(seed1, seed2), psk)) + ZeroBytes(zeros), outer)
            == if TableOffers(t) then Fine(HelloMessage(RealHello(h, t, OrderOf(|t|, seeds), GreaseOf(seed1, seed2), psk)))
               else Err(InvalidInner)
  {
    GreaseSeedsOk(seed1, seed2);
    EncodedNotEmpty(t, OrderOf(|t|, seeds), GreaseOf(seed1, seed2), psk);
    hide *;
    DecodeEncode(h, outer, t, OrderOf(|t|, seeds), GreaseOf(seed1, seed2), psk, outerPsk, outerPadding, zeros);
  }

  lemma EncodedNotEmpty(t: seq<Entry>, order: seq<nat>, g: Greases, psk: Option<bytes>)
    requires IsOrder(order, |t|) && g.Some?
    ensures EncodedExts(t, order, g, psk) != []
  {
    hide PlainOf, CompressedOf, Psk, TypeList, Types;
    assert AllCompressed(t, order, g) != [];
  }

  /** The real hello is a valid inner one exactly if the table makes it one. */
  lemma RealValid(h: Hello, t: seq<Entry>, order: seq<nat>, g: Greases, psk: Option<bytes>)
    requires TableOk(t) && IsOrder(order, |t|) && GreaseOk(g) && (psk.Some? ==> |psk.value| < Limit(2))
    requires |Encode(RealExts(t, order, g, psk))| < Limit(2) && HelloOk(h.(exts := []))
    ensures ValidInner(WriteHello(RealHello(h, t, order, g, psk))) <==> TableOffers(t)
  {
    var xs := RealExts(t, order, g, psk);
    ListFit(t, order, g, 0, psk);
    RealSized(h, Encode(xs));
    hide TableOk, IsOrder, ValidInner, WriteHello, Encode, Types, TableOffers, OffersInner, HelloOk, Sized, Fit,
         PlainOf, AllCompressed, Psk, GreaseOk;
    FitAround(PlainOf(t, order, |t|), AllCompressed(t, order, g), Psk(psk));
    RealTypesDistinct(t, order, g, psk);
    RealOffers(t, order, g, psk);
    hide RealExts;
    ValidExact(h, xs);
  }

  lemma RealSized(h: Hello, exts: bytes)
    requires HelloOk(h.(exts := [])) && |exts| < Limit(2)
    ensures Sized(h.(exts := exts))
  {
    Limits();
  }

  /** What Decode makes of a hello that parses, zeros that follow it and
      extensions that expand. */
  lemma DecodesTo(encoded: bytes, e: Hello, outer: Hello, zeros: nat, exts: bytes)
    requires ParseHello(encoded) == Ok(e, ZeroBytes(zeros)) && e.exts != [] && e.sessionId == []
    requires InnerExtensions(e.exts, outer.exts) == Fine(exts) && |exts| < Limit(2)
    ensures var h := e.(sessionId := outer.sessionId, exts := exts);
            Decode(encoded, outer) == if ValidInner(WriteHello(h)) then Fine(HelloMessage(h)) else Err(InvalidInner)
  {
    hide ParseHello, InnerExtensions, ValidInner, WriteHello, HelloMessage;
    assert AllZero(ZeroBytes(zeros));
  }

  lemma EncodedReads(h: Hello, t: seq<Entry>, order: seq<nat>, g: Greases, psk: Option<bytes>, rest: bytes)
    requires TableOk(t) && IsOrder(order, |t|) && GreaseOk(g) && (psk.Some? ==> |psk.value| < Limit(2))
    requires |Encode(EncodedExts(t, order, g, psk))| < Limit(2)
    requires HelloOk(h.(exts := [])) && EncodedExts(t, order, g, psk) != []
    ensures ParseHello(WriteHello(EncodedHello(h, t, order, g, psk)) + rest) == Ok(EncodedHello(h, t, order, g, psk), rest)
    ensures Encode(EncodedExts(t, order, g, psk)) != []
  {
    hide EncodedExts, TableOk, IsOrder, ParseHello, Encode, TypeList, Types, Distinct, AllCompressed, HelloOk, Fit, WriteHello;
    EncodedFit(t, order, g, psk);
    EncodedTypesDistinct(t, order, g, psk);
    HelloWithoutId(h);
    assert h.(sessionId := []).(exts := []) == h.(sessionId := [], exts := []);
    HelloReads(h.(sessionId := []), EncodedExts(t, order, g, psk), rest);
  }

  lemma HelloWithoutId(h: Hello)
    requires HelloOk(h.(exts := []))
    ensures HelloOk(h.(sessionId := [], exts := []))
  {}

  /** A hello with well-formed extensions of distinct types reads back. */
  lemma HelloReads(h: Hello, xs: seq<Ext>, rest: bytes)
    requires Fit(xs) && Distinct(Types(xs)) && xs != [] && |Encode(xs)| < Limit(2)
    requires HelloOk(h.(exts := []))
    ensures ParseHello(WriteHello(h.(exts := Encode(xs))) + rest) == Ok(h.(exts := Encode(xs)), rest)
    ensures Encode(xs) != []
  {
    ParseEncode(xs);
    ExtNotEmpty(xs[0]);
    assert Encode(xs) != [];
    hide ParseHello, Encode, Types, Distinct, WriteHello;
    assert HelloOk(h.(exts := Encode(xs)));
    ParseWrite(h.(exts := Encode(xs)), rest);
  }

  lemma EncodedFit(t: seq<Entry>, order: seq<nat>, g: Greases, psk: Option<bytes>)
    requires TableOk(t) && IsOrder(order, |t|) && (psk.Some? ==> |psk.value| < Limit(2))
    ensures Fit(EncodedExts(t, order, g, psk))
  {
    Limits();
    ListFit(t, order, g, 0, psk);
    TypesShort(t, order, g);
    hide TableOk, IsOrder, TypeList, PlainOf, AllCompressed, Psk;
    FitAround(PlainOf(t, order, |t|), Reference(AllCompressed(t, order, g)), Psk(psk));
  }

  // ---------- Padding the encoded hello ----------

  /** The zeros ssl_encrypt_client_hello adds to len encoded bytes: the fewest that
      hide the name and fill the last 32 bytes. */
  method PaddingLength(len: nat, hostname: Option<nat>, maxName: nat) returns (padding: nat)
    requires len > 0
    ensures padding == EchPadding(len, hostname, maxName)
    ensures (len + padding) % 32 == 0 && NamePadding(hostname, maxName) <= padding < NamePadding(hostname, maxName) + 32
  {
    padding := 0;
    if hostname.Some? {
      if hostname.value <= maxName {
        padding := maxName - hostname.value;
      }
    } else {
      padding := SNI_OVERHEAD + maxName;
    }
    padding := padding + 31 - (len + padding - 1) % 32;
  }

  const SNI_OVERHEAD := 9

  function EchPadding(len: nat, hostname: Option<nat>, maxName: nat): nat
    requires len > 0
  {
    var first := NamePadding(hostname, maxName);
    first + 31 - (len + first - 1) % 32
  }

  function NamePadding(hostname: Option<nat>, maxName: nat): nat {
    match hostname
    case Some(n) => if n <= maxName then maxName - n else 0
    case None => SNI_OVERHEAD + maxName
  }

  /** The padded length is the next multiple of 32 after the name's padding. */
  lemma PaddedLength(len: nat, hostname: Option<nat>, maxName: nat)
    requires len > 0
    ensures var total := len + EchPadding(len, hostname, maxName);
            var least := len + match hostname
                               case None => 9 + maxName
                               case Some(n) => if n < maxName then maxName - n else 0;
            total % 32 == 0 && least <= total < least + 32
  {}

  /** The padded length does not tell names up to the maximum apart, nor a hello
      with a name from one without: rest is the length but for the server_name
      extension. */
  lemma PaddingHidesName(rest: nat, a: Option<nat>, b: Option<nat>, maxName: nat)
    requires (a.Some? ==> a.value <= maxName) && (b.Some? ==> b.value <= maxName)
    requires rest > 0
    ensures var lenA := rest + if a.Some? then 9 + a.value else 0;
            var lenB := rest + if b.Some? then 9 + b.value else 0;
            lenA + EchPadding(lenA, a, maxName) == lenB + EchPadding(lenB, b, maxName)
  {}
}
