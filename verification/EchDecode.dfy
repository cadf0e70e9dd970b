/** The answer of the inner hello's decoder to whatever arrives: each refusal and
    its reason, and what comes of a hello that is accepted. */
module EchDecode {
  import opened Bytes
  import opened Extensions
  import opened HelloWriter
  import opened EchHello
  import opened EchInner
  import opened EchRoundTrip

  /** What is no ClientHello is refused; so is one followed by anything but zeros,
      for another reason; and one without extensions or with a session ID of its
      own. */
  lemma Refusals(encoded: bytes, outer: Hello)
    ensures ParseHello(encoded).Fail? ==> Decode(encoded, outer) == Err(DecodeError)
    ensures ParseHello(encoded).Ok? ==>
              var (e, padding) := (ParseHello(encoded).value, ParseHello(encoded).rest);
              if exists i :: 0 <= i < |padding| && padding[i] != 0 then Decode(encoded, outer) == Err(BadPadding)
              else (e.exts == [] || e.sessionId != [] ==> Decode(encoded, outer) == Err(DecodeError))
  {
    hide ParseHello, InnerExtensions, ValidInner;
  }

  /** The outcome once the extensions are known. */
  ghost predicate Outcome(r: Result, h: Hello, xs: seq<Ext>) {
    if |Encode(xs)| >= 0x1_0000 then r == Err(TooLong)
    else if Distinct(Types(xs)) && OffersInner(xs) then r == Fine(HelloMessage(h.(exts := Encode(xs))))
    else r == Err(InvalidInner)
  }

  lemma Settled(encoded: bytes, e: Hello, outer: Hello, zeros: nat, xs: seq<Ext>)
    requires ParseHello(encoded) == Ok(e, ZeroBytes(zeros)) && e.exts != [] && e.sessionId == []
    requires Sized(e) && |outer.sessionId| <= 32 && Fit(xs)
    requires InnerExtensions(e.exts, outer.exts) == Fine(Encode(xs))
    ensures Outcome(Decode(encoded, outer), e.(sessionId := outer.sessionId), xs)
  {
    Limits();
    var h := e.(sessionId := outer.sessionId);
    if |Encode(xs)| < 0x1_0000 {
      assert Sized(h.(exts := Encode(xs)));
      ValidExact(h, xs);
      hide ParseHello, InnerExtensions, ValidInner, WriteHello, HelloMessage, Encode, Types, Distinct, OffersInner;
      DecodesTo(encoded, e, outer, zeros, Encode(xs));
      assert e.(sessionId := outer.sessionId, exts := Encode(xs)) == h.(exts := Encode(xs));
    } else {
      hide ParseHello, InnerExtensions, ValidInner, WriteHello, HelloMessage, Encode;
      assert AllZero(ZeroBytes(zeros));
    }
  }

  /** The hello that is encoded, with these extensions, and zeros behind it. */
  predicate Arrived(encoded: bytes, e: Hello, zeros: nat, outer: Hello, xs: seq<Ext>) {
    && ParseHello(encoded) == Ok(e, ZeroBytes(zeros)) && e.sessionId == [] && e.exts == Encode(xs)
    && Fit(xs) && xs != [] && |outer.sessionId| <= 32
  }

  lemma ArrivedParts(encoded: bytes, e: Hello, zeros: nat, outer: Hello, xs: seq<Ext>)
    requires Arrived(encoded, e, zeros, outer, xs)
    ensures Sized(e) && e.exts != [] && Distinct(Types(xs))
  {
    ReadIsHello(encoded);
    ParseEncode(xs);
    ExtNotEmpty(xs[0]);
    hide ParseHello, WriteHello, WriteWithout, EncodeExt;
  }

  /** A hello that refers to nothing is taken as it is, but for the session ID. */
  lemma WithoutReference(encoded: bytes, e: Hello, zeros: nat, outer: Hello, xs: seq<Ext>)
    requires Arrived(encoded, e, zeros, outer, xs) && 0xfd00 !in Types(xs)
    ensures Outcome(Decode(encoded, outer), e.(sessionId := outer.sessionId), xs)
  {
    ArrivedParts(encoded, e, zeros, outer, xs);
    FindAbsent(xs, 0xfd00);
    hide ParseHello, Decode, Encode, Types, Find, Outcome;
    Settled(encoded, e, outer, zeros, xs);
  }

  /** The extensions of these types, in this order, among os. */
  lemma {:induction false} Picked(ts: seq<u16>, os: seq<Ext>) returns (cs: seq<Ext>)
    requires Fit(os) && TypeSub(ts, Types(os))
    ensures Expand(TypeList(ts), Encode(os)) == Fine(Encode(cs)) && Sub(cs, os) && Types(cs) == ts && Fit(cs)
    decreases |os|
  {
    ExpandSteps(ts, os);
    hide Expand, TypeList, EncodeExt;
    if ts == [] {
      cs := [];
      SubNone(os);
    } else {
      var rest := os[1..];
      assert Types(os)[1..] == Types(rest);
      if ts[0] == os[0].typ {
        if TypeSub(ts, Types(rest)) { SubTail(ts, Types(rest)); }
        var more := Picked(ts[1..], rest);
        cs := [os[0]] + more;
        assert cs[1..] == more;
        assert Types(cs) == [ts[0]] + ts[1..];
      } else {
        cs := Picked(ts, rest);
      }
    }
  }

  /** An ech_outer_extensions that lists types. */
  function RefersTo(ts: seq<u16>): Ext
    requires 1 <= |ts| <= 127
  {
    Ext(0xfd00, [2 * |ts|] + TypeList(ts))
  }

  lemma ListReads(ts: seq<u16>)
    requires 1 <= |ts| <= 127
    ensures ExtFits(RefersTo(ts)) && GetPrefixed(RefersTo(ts).body, 1) == Ok(TypeList(ts), []) && TypeList(ts) != []
  {
    hide TypeList, Put, GetPrefixed, Limit;
    Limits();
    ListLength(ts);
    ByteReads(TypeList(ts));
  }

  lemma ByteReads(list: bytes)
    requires |list| < 0x100
    ensures GetPrefixed([|list|] + list, 1) == Ok(list, [])
  {
    Limits();
    GetPutPrefixed(list, 1, []);
    assert Put(|list|, 1) == [|list|];
    hide Put, GetPrefixed;
    assert PutPrefixed(list, 1) + [] == [|list|] + list;
  }

  /** A hello whose ech_outer_extensions lists types that do not occur in the outer
      hello, or not in this order, is refused; otherwise the extensions of these
      types take its place. */
  lemma WithReference(encoded: bytes, e: Hello, zeros: nat, outer: Hello,
                      before: seq<Ext>, ts: seq<u16>, after: seq<Ext>, os: seq<Ext>) returns (cs: seq<Ext>)
    requires 1 <= |ts| <= 127 && Arrived(encoded, e, zeros, outer, before + [RefersTo(ts)] + after)
    requires Fit(os) && outer.exts == Encode(os)
    ensures if !TypeSub(ts, Types(os)) then Decode(encoded, outer) == Err(NotFound)
            else Sub(cs, os) && Types(cs) == ts && Outcome(Decode(encoded, outer), e.(sessionId := outer.sessionId), before + cs + after)
  {
    cs := [];
    var xs := before + [RefersTo(ts)] + after;
    ArrivedParts(encoded, e, zeros, outer, xs);
    hide ParseHello, Decode, Encode, Types, Expand, InnerExtensions, Outcome, Sub, TypeList, TypeSub, Sized, RefersTo, Fit, Distinct;
    Parts(before, RefersTo(ts), after);
    ReferenceExpands(before, ts, after, outer.exts);
    ExpandExactly(ts, os);
    if TypeSub(ts, Types(os)) {
      cs := Picked(ts, os);
      EncodeAppend(before, cs);
      EncodeAppend(before + cs, after);
      FitAround(before, cs, after);
      Settled(encoded, e, outer, zeros, before + cs + after);
    } else {
      Unfound(encoded, e, outer, zeros);
    }
  }

  lemma Unfound(encoded: bytes, e: Hello, outer: Hello, zeros: nat)
    requires ParseHello(encoded) == Ok(e, ZeroBytes(zeros)) && e.exts != [] && e.sessionId == []
    requires InnerExtensions(e.exts, outer.exts) == Err(NotFound)
    ensures Decode(encoded, outer) == Err(NotFound)
  {
    hide ParseHello, InnerExtensions;
    assert AllZero(ZeroBytes(zeros));
  }

  lemma Parts(before: seq<Ext>, x: Ext, after: seq<Ext>)
    requires Fit(before + [x] + after) && Distinct(Types(before + [x] + after))
    ensures Fit(before) && ExtFits(x) && Fit(after) && x.typ !in Types(before)
  {
    var all := before + [x] + after;
    assert forall i | 0 <= i < |before| :: all[i] == before[i];
    assert forall i | 0 <= i < |after| :: all[|before| + 1 + i] == after[i];
    assert all[|before|] == x;
    NotBefore(all, |before|);
    assert all[..|before|] == before;
  }

  lemma ReferenceExpands(before: seq<Ext>, ts: seq<u16>, after: seq<Ext>, outer: bytes)
    requires 1 <= |ts| <= 127 && Fit(before) && Fit(after) && 0xfd00 !in Types(before)
    ensures var r := InnerExtensions(Encode(before + [RefersTo(ts)] + after), outer);
            var e := Expand(TypeList(ts), outer);
            r == if e.Err? then e else Fine(Encode(before) + e.out + Encode(after))
  {
    ListReads(ts);
    var x := RefersTo(ts);
    FindIn(before, x, after);
    hide Find, Expand, TypeList, Types, EncodeExt, GetPrefixed, Encode, Fit, ExtFits;
    EncodeAppend(before, [x]);
    EncodeAppend(before + [x], after);
    EncodeOne(x);
    JoinTwo(Encode(before), EncodeExt(x), Encode(after));
  }
}
