/** The extensions a ClientHello is written with have distinct types. */
module HelloTypes {
  import opened Bytes
  import opened Extensions
  import opened HelloWriter

  function TypeSet(xs: seq<Ext>): set<u16> {
    if xs == [] then {} else {xs[0].typ} + TypeSet(xs[1..])
  }

  predicate Unique(xs: seq<Ext>) {
    forall i, j | 0 <= i < j < |xs| :: xs[i].typ != xs[j].typ
  }

  lemma UniqueIsDistinct(xs: seq<Ext>)
    ensures Unique(xs) <==> Distinct(Types(xs))
  {
    if Distinct(Types(xs)) {
      forall i, j | 0 <= i < j < |xs| ensures xs[i].typ != xs[j].typ { assert Types(xs)[i] != Types(xs)[j]; }
    }
  }

  lemma {:induction false} TypeIn(xs: seq<Ext>, i: nat)
    requires i < |xs|
    ensures xs[i].typ in TypeSet(xs)
  {
    if i > 0 { TypeIn(xs[1..], i - 1); }
  }

  lemma {:induction false} InTypeSet(xs: seq<Ext>, typ: u16)
    ensures typ in TypeSet(xs) <==> typ in Types(xs)
  {
    if xs != [] { InTypeSet(xs[1..], typ); }
  }

  lemma {:induction false} TypeSetJoin(xs: seq<Ext>, ys: seq<Ext>)
    ensures TypeSet(xs + ys) == TypeSet(xs) + TypeSet(ys)
  {
    if xs == [] {
      assert xs + ys == ys;
    } else {
      assert (xs + ys)[1..] == xs[1..] + ys;
      TypeSetJoin(xs[1..], ys);
    }
  }

  /** Two lists with distinct types and none in common. */
  lemma JoinUnique(xs: seq<Ext>, ys: seq<Ext>)
    requires Unique(xs) && Unique(ys) && TypeSet(xs) !! TypeSet(ys)
    ensures Unique(xs + ys) && TypeSet(xs + ys) == TypeSet(xs) + TypeSet(ys)
  {
    TypeSetJoin(xs, ys);
    hide TypeSet;
    forall i, j | 0 <= i < |xs| && 0 <= j < |ys| ensures xs[i].typ != ys[j].typ {
      TypeIn(xs, i);
      TypeIn(ys, j);
    }
    var zs := xs + ys;
    forall i, j | 0 <= i < j < |zs| ensures zs[i].typ != zs[j].typ {
      if j < |xs| { assert zs[i] == xs[i] && zs[j] == xs[j]; }
      else if i < |xs| { assert zs[i] == xs[i] && zs[j] == ys[j - |xs|]; }
      else { assert zs[i] == ys[i - |xs|] && zs[j] == ys[j - |xs|]; }
    }
  }

  lemma JoinThree(a: seq<Ext>, b: seq<Ext>, c: seq<Ext>)
    requires Unique(a) && Unique(b) && Unique(c)
    requires TypeSet(a) !! TypeSet(b) && TypeSet(a) !! TypeSet(c) && TypeSet(b) !! TypeSet(c)
    ensures Unique(a + b + c)
  {
    hide *;
    JoinUnique(a, b);
    JoinUnique(a + b, c);
  }

  /** Whether an entry writes into the outer hello (kind 0), stays as it is in an
      inner hello (1) or is compressed there (2). */
  predicate Wrote(x: Entry, kind: nat) {
    if kind == 0 then x.outer.Some? else if kind == 1 then x.inner.Plain? else x.inner.Compressed?
  }

  function ListOf(t: seq<Entry>, order: seq<nat>, k: nat, kind: nat): seq<Ext>
    requires IsOrder(order, |t|) && k <= |t|
  {
    if kind == 0 then OuterOf(t, order, k) else if kind == 1 then PlainOf(t, order, k) else CompressedOf(t, order, k)
  }

  function One(x: Entry, kind: nat): seq<Ext> {
    if kind == 0 then Listed(x) else if kind == 1 then ListedPlain(x) else ListedCompressed(x)
  }

  lemma OneTypes(x: Entry, kind: nat)
    ensures Unique(One(x, kind)) && TypeSet(One(x, kind)) == if Wrote(x, kind) then {x.typ} else {}
  {}

  lemma ListGrows(t: seq<Entry>, order: seq<nat>, k: nat, kind: nat)
    requires IsOrder(order, |t|) && k < |t|
    ensures ListOf(t, order, k + 1, kind) == ListOf(t, order, k, kind) + One(t[order[k]], kind)
  {
    TableGrows(t, order, k);
  }

  /** The types written by the entries at the first k places. */
  function TypesWritten(t: seq<Entry>, order: seq<nat>, k: nat, kind: nat): set<u16>
    requires IsOrder(order, |t|) && k <= |t|
  {
    set j | 0 <= j < k && Wrote(t[order[j]], kind) :: t[order[j]].typ
  }

  lemma SameTypeSameEntry(t: seq<Entry>, i: nat, j: nat)
    requires TableOk(t) && i < |t| && j < |t|
    ensures t[i].typ == t[j].typ ==> i == j
  {}

  lemma WrittenGrows(t: seq<Entry>, order: seq<nat>, k: nat, kind: nat)
    requires TableOk(t) && IsOrder(order, |t|) && k < |t|
    ensures TypesWritten(t, order, k + 1, kind) ==
            TypesWritten(t, order, k, kind) + if Wrote(t[order[k]], kind) then {t[order[k]].typ} else {}
    ensures t[order[k]].typ !in TypesWritten(t, order, k, kind)
  {
    forall j | 0 <= j < k ensures t[order[j]].typ != t[order[k]].typ { SameTypeSameEntry(t, order[j], order[k]); }
  }

  lemma {:induction false} ListTypes(t: seq<Entry>, order: seq<nat>, k: nat, kind: nat)
    requires TableOk(t) && IsOrder(order, |t|) && k <= |t|
    ensures Unique(ListOf(t, order, k, kind)) && TypeSet(ListOf(t, order, k, kind)) == TypesWritten(t, order, k, kind)
  {
    if k > 0 {
      ListTypes(t, order, k - 1, kind);
      ListGrows(t, order, k - 1, kind);
      WrittenGrows(t, order, k - 1, kind);
      OneTypes(t[order[k - 1]], kind);
      hide TableOk, IsOrder, TypesWritten, ListOf, One, Unique, TypeSet;
      JoinUnique(ListOf(t, order, k - 1, kind), One(t[order[k - 1]], kind));
    }
  }

  lemma {:induction false} ListFits(t: seq<Entry>, order: seq<nat>, k: nat, kind: nat)
    requires TableOk(t) && IsOrder(order, |t|) && k <= |t|
    ensures Fit(ListOf(t, order, k, kind))
  {
    if k > 0 {
      ListFits(t, order, k - 1, kind);
      assert BodiesFit(t[order[k - 1]]);
    }
  }

  /** What is kept and what is compressed come from different entries. */
  lemma KindsApart(t: seq<Entry>, order: seq<nat>)
    requires TableOk(t) && IsOrder(order, |t|)
    ensures TypesWritten(t, order, |t|, 1) !! TypesWritten(t, order, |t|, 2)
  {
    forall i, j | 0 <= i < |t| && 0 <= j < |t| && Wrote(t[order[i]], 1) && Wrote(t[order[j]], 2)
      ensures t[order[i]].typ != t[order[j]].typ
    {
      SameTypeSameEntry(t, order[i], order[j]);
    }
  }

  lemma NotReserved(t: seq<Entry>, order: seq<nat>, k: nat, kind: nat, typ: u16)
    requires TableOk(t) && IsOrder(order, |t|) && k <= |t| && Reserved(typ)
    ensures typ !in TypesWritten(t, order, k, kind)
  {}

  // ---------- The hellos ----------

  function GreaseSet(g: Greases): set<u16> {
    if g.Some? then {g.value.0, g.value.1} else {}
  }

  lemma Singletons(g: Greases, psk: Option<bytes>, padding: nat, xs: seq<Ext>)
    ensures Unique(GreaseFirst(g)) && TypeSet(GreaseFirst(g)) == if g.Some? then {g.value.0} else {}
    ensures Unique(GreaseLast(g)) && TypeSet(GreaseLast(g)) == if g.Some? then {g.value.1} else {}
    ensures Unique(Psk(psk)) && TypeSet(Psk(psk)) == if psk.Some? then {PRE_SHARED_KEY} else {}
    ensures Unique(Pad(padding)) && TypeSet(Pad(padding)) == if padding == 0 then {} else {PADDING}
    ensures Unique(Reference(xs)) && TypeSet(Reference(xs)) == if xs == [] then {} else {ECH_OUTER_EXTENSIONS}
  {}

  lemma ReservedApart(g: Greases)
    requires GreaseOk(g)
    ensures GreaseSet(g) !! {PADDING, PRE_SHARED_KEY, ECH_OUTER_EXTENSIONS}
    ensures g.Some? ==> g.value.0 != g.value.1 && Reserved(g.value.0) && Reserved(g.value.1)
  {}

  /** What the table writes, with GREASE in front and behind. */
  lemma TableTypes(t: seq<Entry>, order: seq<nat>, g: Greases, kind: nat)
    requires TableOk(t) && IsOrder(order, |t|) && GreaseOk(g)
    ensures var xs := GreaseFirst(g) + ListOf(t, order, |t|, kind) + GreaseLast(g);
            Unique(xs) && TypeSet(xs) == GreaseSet(g) + TypesWritten(t, order, |t|, kind)
  {
    ListTypes(t, order, |t|, kind);
    Singletons(g, None, 0, []);
    ReservedApart(g);
    if g.Some? {
      NotReserved(t, order, |t|, kind, g.value.0);
      NotReserved(t, order, |t|, kind, g.value.1);
    }
    hide TableOk, IsOrder, TypesWritten, ListOf, Unique, TypeSet, GreaseFirst, GreaseLast, IsGrease;
    JoinUnique(GreaseFirst(g), ListOf(t, order, |t|, kind));
    JoinUnique(GreaseFirst(g) + ListOf(t, order, |t|, kind), GreaseLast(g));
  }

  /** The real inner hello has distinct extension types. */
  lemma RealTypesDistinct(t: seq<Entry>, order: seq<nat>, g: Greases, psk: Option<bytes>)
    requires TableOk(t) && IsOrder(order, |t|) && GreaseOk(g)
    ensures Distinct(Types(RealExts(t, order, g, psk)))
    ensures ECH_OUTER_EXTENSIONS !in Types(RealExts(t, order, g, psk))
  {
    var xs := PlainOf(t, order, |t|) + AllCompressed(t, order, g);
    PlainAndCompressed(t, order, g);
    Singletons(g, psk, 0, []);
    ReservedApart(g);
    NotReserved(t, order, |t|, 1, PRE_SHARED_KEY);
    NotReserved(t, order, |t|, 2, PRE_SHARED_KEY);
    NotReserved(t, order, |t|, 1, ECH_OUTER_EXTENSIONS);
    NotReserved(t, order, |t|, 2, ECH_OUTER_EXTENSIONS);
    InTypeSet(RealExts(t, order, g, psk), ECH_OUTER_EXTENSIONS);
    UniqueIsDistinct(RealExts(t, order, g, psk));
    hide TableOk, IsOrder, TypesWritten, PlainOf, AllCompressed, Psk, Unique, TypeSet, IsGrease, Types, Distinct;
    JoinUnique(xs, Psk(psk));
  }

  lemma PlainAndCompressed(t: seq<Entry>, order: seq<nat>, g: Greases)
    requires TableOk(t) && IsOrder(order, |t|) && GreaseOk(g)
    ensures var xs := PlainOf(t, order, |t|) + AllCompressed(t, order, g);
            Unique(xs) && TypeSet(xs) == GreaseSet(g) + TypesWritten(t, order, |t|, 1) + TypesWritten(t, order, |t|, 2)
  {
    ListTypes(t, order, |t|, 1);
    TableTypes(t, order, g, 2);
    KindsApart(t, order);
    ReservedApart(g);
    if g.Some? {
      NotReserved(t, order, |t|, 1, g.value.0);
      NotReserved(t, order, |t|, 1, g.value.1);
    }
    assert AllCompressed(t, order, g) == GreaseFirst(g) + ListOf(t, order, |t|, 2) + GreaseLast(g);
    hide TableOk, IsOrder, TypesWritten, PlainOf, AllCompressed, Unique, TypeSet, IsGrease, GreaseFirst, GreaseLast;
    JoinUnique(PlainOf(t, order, |t|), AllCompressed(t, order, g));
  }

  /** So has its encoded form. */
  lemma EncodedTypesDistinct(t: seq<Entry>, order: seq<nat>, g: Greases, psk: Option<bytes>)
    requires TableOk(t) && IsOrder(order, |t|) && GreaseOk(g)
    ensures Distinct(Types(EncodedExts(t, order, g, psk)))
    ensures ECH_OUTER_EXTENSIONS !in Types(PlainOf(t, order, |t|)) && ECH_OUTER_EXTENSIONS !in Types(Psk(psk))
  {
    var xs := PlainOf(t, order, |t|);
    var r := Reference(AllCompressed(t, order, g));
    assert EncodedExts(t, order, g, psk) == xs + r + Psk(psk);
    hide TableOk, IsOrder, PlainOf, AllCompressed, EncodedExts, IsGrease, GreaseOk, Distinct, Unique, Types, TypeSet, TypesWritten,
         GreaseFirst, GreaseLast, CompressedOf, Psk, Reference;
    ListTypes(t, order, |t|, 1);
    Singletons(g, psk, 0, AllCompressed(t, order, g));
    NotReserved(t, order, |t|, 1, ECH_OUTER_EXTENSIONS);
    NotReserved(t, order, |t|, 1, PRE_SHARED_KEY);
    InTypeSet(xs, ECH_OUTER_EXTENSIONS);
    InTypeSet(Psk(psk), ECH_OUTER_EXTENSIONS);
    UniqueIsDistinct(EncodedExts(t, order, g, psk));
    hide *;
    JoinThree(xs, r, Psk(psk));
  }

  /** And so has the outer hello, in every order, with GREASE, padding and all. */
  lemma OuterTypesDistinct(t: seq<Entry>, order: seq<nat>, g: Greases, padding: nat, psk: Option<bytes>)
    requires TableOk(t) && IsOrder(order, |t|) && GreaseOk(g)
    ensures Distinct(Types(OuterExts(t, order, g, padding, psk)))
  {
    var xs := GreaseFirst(g) + OuterOf(t, order, |t|) + GreaseLast(g);
    TableTypes(t, order, g, 0);
    Singletons(g, psk, padding, []);
    ReservedApart(g);
    NotReserved(t, order, |t|, 0, PADDING);
    NotReserved(t, order, |t|, 0, PRE_SHARED_KEY);
    UniqueIsDistinct(OuterExts(t, order, g, padding, psk));
    hide TableOk, IsOrder, TypesWritten, OuterOf, Pad, Psk, Unique, TypeSet, IsGrease, Types, Distinct, GreaseFirst, GreaseLast;
    JoinUnique(xs, Pad(padding));
    JoinUnique(xs + Pad(padding), Psk(psk));
  }

  /** For any seeds of the shuffle and of GREASE, whatever is padded: the inner
      hello, its encoded form and the outer hello have distinct types each. */
  lemma SeedsDistinct(t: seq<Entry>, seeds: seq<nat>, seed1: bv8, seed2: bv8, padding: nat, psk: Option<bytes>)
    requires TableOk(t) && |seeds| + 1 == |t|
    ensures var (order, g) := (OrderOf(|t|, seeds), GreaseOf(seed1, seed2));
            && Distinct(Types(RealExts(t, order, g, psk)))
            && Distinct(Types(EncodedExts(t, order, g, psk)))
            && Distinct(Types(OuterExts(t, order, g, padding, psk)))
  {
    GreaseSeedsOk(seed1, seed2);
    var (order, g) := (OrderOf(|t|, seeds), GreaseOf(seed1, seed2));
    hide GreaseOf, GreaseOk, OrderOf, TableOk, IsOrder, Types, Distinct, RealExts, EncodedExts, OuterExts;
    RealTypesDistinct(t, order, g, psk);
    EncodedTypesDistinct(t, order, g, psk);
    OuterTypesDistinct(t, order, g, padding, psk);
  }
}
