/** Blocks of hello extensions: their encoding, and the check that no type occurs
    twice (section 7.4.1.4 of RFC 5246). */
module Extensions {
  import opened Bytes

  type u16 = n: nat | n < 0x1_0000

  datatype Ext = Ext(typ: u16, body: bytes)

  predicate ExtFits(x: Ext) { |x.body| < Limit(2) }

  predicate Fit(xs: seq<Ext>) {
    forall i | 0 <= i < |xs| :: ExtFits(xs[i])
  }

  function EncodeExt(x: Ext): bytes { Put(x.typ, 2) + PutPrefixed(x.body, 2) }

  function Encode(xs: seq<Ext>): bytes {
    if xs == [] then [] else EncodeExt(xs[0]) + Encode(xs[1..])
  }

  /** One extension off the front of a block. */
  function GetExt(s: bytes): (r: Read<Ext>)
    ensures r.Ok? ==> |r.rest| < |s| && ExtFits(r.value)
  {
    match GetUint(s, 2)
    case Fail => Fail
    case Ok(typ, s1) =>
      PutGet(s, 2);
      Limits();
      match GetPrefixed(s1, 2)
      case Fail => Fail
      case Ok(body, rest) =>
        PutGetPrefixed(s1, 2);
        Ok(Ext(typ, body), rest)
  }

  function Parse(s: bytes): Option<seq<Ext>>
    decreases |s|
  {
    if s == [] then Some([])
    else
      match GetExt(s)
      case Fail => None
      case Ok(x, rest) =>
        match Parse(rest)
        case None => None
        case Some(xs) => Some([x] + xs)
  }

  lemma GetEncodeExt(x: Ext, rest: bytes)
    requires ExtFits(x)
    ensures GetExt(EncodeExt(x) + rest) == Ok(x, rest)
  {
    Limits();
    GetPut(x.typ, 2, PutPrefixed(x.body, 2) + rest);
    GetPutPrefixed(x.body, 2, rest);
    assert EncodeExt(x) + rest == Put(x.typ, 2) + (PutPrefixed(x.body, 2) + rest);
  }

  lemma EncodeGetExt(s: bytes)
    requires GetExt(s).Ok?
    ensures s == EncodeExt(GetExt(s).value) + GetExt(s).rest
  {
    PutGet(s, 2);
    var s1 := GetUint(s, 2).rest;
    PutGetPrefixed(s1, 2);
    hide Put, PutPrefixed, GetPrefixed, GetUint;
    var x := GetExt(s).value;
    assert Put(x.typ, 2) + (PutPrefixed(x.body, 2) + GetExt(s).rest) == Put(x.typ, 2) + PutPrefixed(x.body, 2) + GetExt(s).rest;
  }

  lemma {:induction false} ParseEncode(xs: seq<Ext>)
    requires Fit(xs)
    ensures Parse(Encode(xs)) == Some(xs)
  {
    hide GetExt, EncodeExt;
    if xs != [] {
      assert ExtFits(xs[0]);
      GetEncodeExt(xs[0], Encode(xs[1..]));
      ExtNotEmpty(xs[0]);
      ParseEncode(xs[1..]);
      assert [xs[0]] + xs[1..] == xs;
    }
  }

  lemma ExtNotEmpty(x: Ext)
    ensures EncodeExt(x) != []
  {}

  lemma {:induction false} EncodeParse(s: bytes)
    requires Parse(s).Some?
    ensures Fit(Parse(s).value) && Encode(Parse(s).value) == s
    decreases |s|
  {
    hide GetExt, EncodeExt;
    if s != [] {
      EncodeGetExt(s);
      EncodeParse(GetExt(s).rest);
    }
  }

  lemma {:induction false} EncodeAppend(xs: seq<Ext>, ys: seq<Ext>)
    ensures Encode(xs + ys) == Encode(xs) + Encode(ys)
  {
    hide EncodeExt;
    if xs == [] {
      assert xs + ys == ys;
    } else {
      assert (xs + ys)[1..] == xs[1..] + ys;
      EncodeAppend(xs[1..], ys);
    }
  }

  lemma EncodeOne(x: Ext)
    ensures Encode([x]) == EncodeExt(x)
  {
    assert Encode([x][1..]) == [];
  }

  // ---------- Looking an extension up ----------

  function Types(xs: seq<Ext>): (r: seq<u16>)
    ensures |r| == |xs| && forall i | 0 <= i < |xs| :: r[i] == xs[i].typ
  {
    if xs == [] then [] else [xs[0].typ] + Types(xs[1..])
  }

  predicate Distinct(s: seq<u16>) {
    forall i, j | 0 <= i < j < |s| :: s[i] != s[j]
  }

  /** ssl_client_hello_get_extension: the first of a type, as what comes before it,
      its body, and what comes after; None also for a block that does not parse up
      to it. */
  function Find(s: bytes, typ: u16): Option<(bytes, bytes, bytes)>
    decreases |s|
  {
    if s == [] then None
    else
      match GetExt(s)
      case Fail => None
      case Ok(x, rest) =>
        if x.typ == typ then Some(([], x.body, rest))
        else
          match Find(rest, typ)
          case None => None
          case Some((before, body, after)) => Some((s[..|s| - |rest|] + before, body, after))
  }

  lemma {:induction false} FindIn(xs: seq<Ext>, x: Ext, ys: seq<Ext>)
    requires Fit(xs) && ExtFits(x) && x.typ !in Types(xs)
    ensures Find(Encode(xs) + (EncodeExt(x) + Encode(ys)), x.typ) == Some((Encode(xs), x.body, Encode(ys)))
  {
    hide GetExt, EncodeExt;
    var tail := EncodeExt(x) + Encode(ys);
    if xs == [] {
      assert Encode(xs) + tail == tail;
      GetEncodeExt(x, Encode(ys));
      ExtNotEmpty(x);
    } else {
      assert ExtFits(xs[0]) && xs[0].typ == Types(xs)[0];
      var rest := Encode(xs[1..]) + tail;
      assert Encode(xs) + tail == EncodeExt(xs[0]) + rest;
      GetEncodeExt(xs[0], rest);
      ExtNotEmpty(xs[0]);
      assert forall i | 0 <= i < |xs[1..]| :: Types(xs[1..])[i] == Types(xs)[i + 1];
      FindIn(xs[1..], x, ys);
      var s := EncodeExt(xs[0]) + rest;
      assert s[..|s| - |rest|] == EncodeExt(xs[0]);
    }
  }

  lemma {:induction false} FindAbsent(xs: seq<Ext>, typ: u16)
    requires Fit(xs) && typ !in Types(xs)
    ensures Find(Encode(xs), typ) == None
  {
    hide GetExt, EncodeExt;
    if xs != [] {
      assert ExtFits(xs[0]) && xs[0].typ == Types(xs)[0];
      GetEncodeExt(xs[0], Encode(xs[1..]));
      assert forall i | 0 <= i < |xs[1..]| :: Types(xs[1..])[i] == Types(xs)[i + 1];
      FindAbsent(xs[1..], typ);
    }
  }

  // ---------- The check for duplicates ----------

  predicate Sorted(s: seq<u16>) {
    forall i, j | 0 <= i < j < |s| :: s[i] <= s[j]
  }

  function Insert(x: u16, s: seq<u16>): seq<u16> {
    if s == [] then [x]
    else if x <= s[0] then [x] + s
    else [s[0]] + Insert(x, s[1..])
  }

  lemma {:induction false} InsertAdds(x: u16, s: seq<u16>)
    ensures multiset(Insert(x, s)) == multiset(s) + multiset{x}
  {
    if s != [] {
      assert s == [s[0]] + s[1..];
      InsertAdds(x, s[1..]);
    }
  }

  lemma {:induction false} InsertSorts(x: u16, s: seq<u16>)
    requires Sorted(s)
    ensures Sorted(Insert(x, s)) && Insert(x, s) != []
    ensures Insert(x, s)[0] == if s == [] || x <= s[0] then x else s[0]
  {
    if s != [] && x > s[0] { InsertSorts(x, s[1..]); }
  }

  /** Stands for qsort with compare_uint16_t. */
  method Sort(types: seq<u16>) returns (sorted: seq<u16>)
    ensures Sorted(sorted) && multiset(sorted) == multiset(types)
  {
    sorted := [];
    var i := 0;
    while i < |types|
      invariant 0 <= i <= |types|
      invariant Sorted(sorted) && multiset(sorted) == multiset(types[..i])
    {
      InsertSorts(types[i], sorted);
      InsertAdds(types[i], sorted);
      assert types[..i + 1] == types[..i] + [types[i]];
      sorted := Insert(types[i], sorted);
      i := i + 1;
    }
    assert types[..|types|] == types;
  }

  lemma {:induction false} DistinctIsCount(s: seq<u16>)
    ensures Distinct(s) <==> forall x :: multiset(s)[x] <= 1
  {
    if s != [] {
      var t := s[1..];
      assert s == [s[0]] + t;
      DistinctIsCount(t);
      if Distinct(s) {
        assert Distinct(t) by { assert forall i, j | 0 <= i < j < |t| :: t[i] == s[i + 1] && t[j] == s[j + 1]; }
        assert s[0] !in t by { assert forall i | 0 <= i < |t| :: t[i] == s[i + 1]; }
        forall x ensures multiset(s)[x] <= 1 { assert multiset(t)[x] <= 1; }
      }
      if forall x :: multiset(s)[x] <= 1 {
        forall x ensures multiset(t)[x] <= 1 { assert multiset(s)[x] <= 1; }
        assert multiset(s)[s[0]] <= 1;
        assert s[0] !in t;
        forall i, j | 0 <= i < j < |s| ensures s[i] != s[j] {
          assert s[j] == t[j - 1];
          if i > 0 { assert s[i] == t[i - 1]; }
        }
      }
    }
  }

  /** tls1_check_duplicate_extensions: count, gather, sort, compare neighbours. */
  method CheckDuplicates(block: bytes) returns (ok: bool)
    ensures ok <==> Parse(block).Some? && Distinct(Types(Parse(block).value))
  {
    var count := CountExtensions(block);
    if count.None? {
      return false;
    }
    var num := count.value;
    if num == 0 {
      return true;
    }
    var types := GatherTypes(block, num);
    ok := AllDiffer(types);
  }

  /** The first pass. */
  method CountExtensions(block: bytes) returns (num: Option<nat>)
    ensures num == if Parse(block).Some? then Some(|Parse(block).value|) else None
  {
    hide GetExt;
    var n, rest := 0, block;
    while |rest| > 0
      invariant Parse(block).Some? <==> Parse(rest).Some?
      invariant Parse(rest).Some? ==> |Parse(block).value| == n + |Parse(rest).value|
      decreases |rest|
    {
      var r := GetExt(rest);
      if r.Fail? {
        return None;
      }
      rest := r.rest;
      n := n + 1;
    }
    return Some(n);
  }

  method AllDiffer(types: seq<u16>) returns (ok: bool)
    ensures ok <==> Distinct(types)
  {
    var sorted := Sort(types);
    DistinctIsCount(types);
    DistinctIsCount(sorted);
    assert |sorted| == |multiset(sorted)| == |types|;
    var i := 1;
    while i < |sorted|
      invariant 1 <= i
      invariant forall j | 1 <= j < i && j < |sorted| :: sorted[j - 1] < sorted[j]
    {
      if sorted[i - 1] == sorted[i] {
        return false;
      }
      i := i + 1;
    }
    NeighboursDiffer(sorted);
    return true;
  }

  lemma NeighboursDiffer(s: seq<u16>)
    requires forall j | 1 <= j < |s| :: s[j - 1] < s[j]
    ensures Distinct(s)
  {
    forall i, j | 0 <= i < j < |s| ensures s[i] < s[j] { Climb(s, i, j); }
  }

  lemma {:induction false} Climb(s: seq<u16>, i: nat, j: nat)
    requires forall k | 1 <= k < |s| :: s[k - 1] < s[k]
    requires i < j < |s|
    ensures s[i] < s[j]
  {
    if i + 1 < j { Climb(s, i, j - 1); }
  }

  /** The second pass. */
  method GatherTypes(block: bytes, num: nat) returns (types: seq<u16>)
    requires Parse(block).Some? && |Parse(block).value| == num
    ensures types == Types(Parse(block).value)
  {
    hide GetExt;
    types := [];
    var rest := block;
    var i := 0;
    ghost var xs := Parse(block).value;
    while i < num
      invariant 0 <= i <= num
      invariant Parse(rest) == Some(xs[i..]) && |types| == i
      invariant forall j | 0 <= j < i :: types[j] == xs[j].typ
    {
      var r := GetExt(rest);
      assert r.Ok? && [r.value] + xs[i..][1..] == xs[i..] by { assert rest != []; }
      assert xs[i..][1..] == xs[i + 1..];
      types := types + [r.value.typ];
      rest := r.rest;
      i := i + 1;
    }
    assert types == Types(xs);
  }
}
