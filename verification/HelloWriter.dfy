/** Writing the extensions of a ClientHello: their order, the GREASE extensions,
    padding, and the two forms an inner hello of Encrypted ClientHello takes. */
module HelloWriter {
  import opened Bits
  import opened Bytes
  import opened Extensions

  const PADDING: u16 := 21
  const PRE_SHARED_KEY: u16 := 41
  const ECH_OUTER_EXTENSIONS: u16 := 0xfd00
  const MAX_ENTRIES := 32

  /** What a table entry's callback writes into an inner hello: nothing, an
      extension to be sent as it is, or one that repeats the outer hello's. */
  datatype Output = Nothing | Plain(body: bytes) | Compressed(body: bytes)

  datatype Entry = Entry(typ: u16, inner: Output, outer: Option<bytes>)

  predicate BodiesFit(x: Entry) {
    && (x.inner.Plain? ==> |x.inner.body| < Limit(2))
    && (x.inner.Compressed? ==> |x.inner.body| < Limit(2))
    && (x.outer.Some? ==> |x.outer.value| < Limit(2))
  }

  /** A callback compresses only what it writes into the outer hello as well. */
  predicate Repeats(x: Entry) {
    x.inner.Compressed? ==> x.outer == Some(x.inner.body)
  }

  predicate Reserved(typ: u16) {
    typ in {PADDING, PRE_SHARED_KEY, ECH_OUTER_EXTENSIONS} || IsGrease(typ)
  }

  predicate TableOk(t: seq<Entry>) {
    && |t| <= MAX_ENTRIES
    && (forall i | 0 <= i < |t| :: BodiesFit(t[i]) && Repeats(t[i]) && !Reserved(t[i].typ))
    && (forall i, j | 0 <= i < j < |t| :: t[i].typ != t[j].typ)
  }

  // ---------- GREASE ----------

  /** Values of the form 0xNaNa (RFC 8701). */
  predicate IsGrease(typ: u16) {
    typ % 256 == typ / 256 && typ % 16 == 10
  }

  function GreaseWord(seed: bv8): bv16 {
    var r := (seed as bv16 & 0xf0) | 0x0a;
    r | (r << 8)
  }

  function Grease1(seed1: bv8): bv16 { GreaseWord(seed1) }

  function Grease2(seed1: bv8, seed2: bv8): bv16 {
    var r := GreaseWord(seed2);
    if r == GreaseWord(seed1) then r ^ 0x1010 else r
  }

  predicate GreaseForm(w: bv16) {
    w >> 8 == w & 0xff && w & 0x0f == 0x0a
  }

  /** The two fake types are GREASE values and differ, whatever the seeds. */
  lemma GreaseDiffers(seed1: bv8, seed2: bv8)
    ensures GreaseForm(Grease1(seed1)) && GreaseForm(Grease2(seed1, seed2))
    ensures Grease1(seed1) != Grease2(seed1, seed2)
  {}

  /** They carry the upper halves of their seeds, twice; only when these are the
      same, the second differs from its seed, by one bit in each byte. */
  lemma GreaseFromSeeds(seed1: bv8, seed2: bv8)
    ensures var (g, h) := (seed1 as bv16 & 0xf0, seed2 as bv16 & 0xf0);
            && Grease1(seed1) == 0x0a0a | g | (g << 8)
            && Grease2(seed1, seed2) == (0x0a0a | h | (h << 8)) ^ (if g == h then 0x1010 else 0)
  {}

  // ---------- The order ----------

  /** An order visits every entry of the table once. */
  predicate IsOrder(order: seq<nat>, n: nat) {
    && |order| == n
    && (forall i | 0 <= i < n :: order[i] < n)
    && AllDistinct(order)
  }

  function Identity(n: nat): (order: seq<nat>)
    ensures |order| == n
  {
    seq(n, i => i)
  }

  /** The swaps of the shuffle from place i down. */
  function Shuffled(order: seq<nat>, seeds: seq<nat>, i: nat): (r: seq<nat>)
    requires i < |order| && i <= |seeds|
    ensures |r| == |order|
    decreases i
  {
    if i == 0 then order
    else Shuffled(Swapped(order, i, seeds[i - 1] % (i + 1)), seeds, i - 1)
  }

  function Swapped(order: seq<nat>, i: nat, j: nat): seq<nat>
    requires i < |order| && j < |order|
  {
    order[i := order[j]][j := order[i]]
  }

  lemma SwapKeepsOrder(order: seq<nat>, n: nat, i: nat, j: nat)
    requires IsOrder(order, n) && i < n && j < n
    ensures IsOrder(Swapped(order, i, j), n)
  {}

  /** Whatever the seeds, an order comes out. */
  lemma {:induction false} ShuffledIsOrder(order: seq<nat>, seeds: seq<nat>, n: nat, i: nat)
    requires IsOrder(order, n) && i < n && i <= |seeds|
    ensures IsOrder(Shuffled(order, seeds, i), n)
    decreases i
  {
    if i > 0 {
      var j := seeds[i - 1] % (i + 1);
      SwapKeepsOrder(order, n, i, j);
      hide Swapped, IsOrder;
      ShuffledIsOrder(Swapped(order, i, j), seeds, n, i - 1);
    }
  }

  /** The order that n - 1 seeds make. */
  function OrderOf(n: nat, seeds: seq<nat>): (order: seq<nat>)
    requires |seeds| + 1 == n
    ensures IsOrder(order, n)
  {
    ShuffledIsOrder(Identity(n), seeds, n, n - 1);
    Shuffled(Identity(n), seeds, n - 1)
  }

  /** ssl_setup_extension_permutation: from n - 1 random seeds an order. */
  method SetupPermutation(seeds: seq<nat>, n: nat) returns (permutation: array<nat>)
    requires |seeds| + 1 == n
    ensures IsOrder(permutation[..], n)
    ensures permutation[..] == OrderOf(n, seeds)
  {
    permutation := new nat[n](i => i);
    assert permutation[..] == Identity(n);
    var i := n - 1;
    while i > 0
      invariant 0 <= i < n == permutation.Length
      invariant IsOrder(permutation[..], n)
      invariant Shuffled(permutation[..], seeds, i) == Shuffled(Identity(n), seeds, n - 1)
    {
      var j := seeds[i - 1] % (i + 1);
      SwapKeepsOrder(permutation[..], n, i, j);
      ghost var before := permutation[..];
      permutation[i], permutation[j] := permutation[j], permutation[i];
      assert permutation[..] == Swapped(before, i, j);
      i := i - 1;
    }
  }

  /** From place i + 1 on the two agree. */
  predicate AgreeFrom(a: seq<nat>, b: seq<nat>, i: nat) {
    |a| == |b| && forall k | i <= k < |a| :: a[k] == b[k]
  }

  lemma NotYetPlaced(from: seq<nat>, order: seq<nat>, n: nat, i: nat) returns (j: nat)
    requires IsOrder(from, n) && IsOrder(order, n) && i < n && AgreeFrom(from, order, i + 1)
    ensures j <= i && from[j] == order[i]
    ensures AgreeFrom(Swapped(from, i, j), order, i)
  {
    OrderIsOnto(from, n, order[i]);
    j :| 0 <= j < n && from[j] == order[i];
  }

  /** Every order comes out for some seeds: from the last place down, each entry is
      still among those not yet placed. */
  lemma {:induction false} ShuffleReaches(from: seq<nat>, order: seq<nat>, n: nat, i: nat) returns (seeds: seq<nat>)
    requires IsOrder(from, n) && IsOrder(order, n) && i < n && AgreeFrom(from, order, i + 1)
    ensures |seeds| == i && Shuffled(from, seeds, i) == order
    decreases i
  {
    var j := NotYetPlaced(from, order, n, i);
    if i == 0 {
      seeds := [];
      assert from == order;
    } else {
      SwapKeepsOrder(from, n, i, j);
      assert |from| == |order| == n;
      hide IsOrder, AgreeFrom, Swapped, Shuffled;
      var next := Swapped(from, i, j);
      var rest := ShuffleReaches(next, order, n, i - 1);
      seeds := rest + [j];
      SameSeeds(next, rest, seeds, i - 1);
      FirstSwap(from, seeds, i, j);
    }
  }

  lemma FirstSwap(order: seq<nat>, seeds: seq<nat>, i: nat, j: nat)
    requires 0 < i < |order| && i <= |seeds| && seeds[i - 1] == j <= i
    ensures Shuffled(order, seeds, i) == Shuffled(Swapped(order, i, j), seeds, i - 1)
  {
    hide Swapped;
    SmallMod(j, i + 1);
  }

  lemma SmallMod(j: nat, m: nat)
    requires j < m
    ensures j % m == j
  {}

  lemma {:induction false} SameSeeds(order: seq<nat>, a: seq<nat>, b: seq<nat>, i: nat)
    requires i < |order| && i <= |a| <= |b| && b[..|a|] == a
    ensures Shuffled(order, a, i) == Shuffled(order, b, i)
    decreases i
  {
    if i > 0 {
      assert a[i - 1] == b[i - 1];
      SameSeeds(Swapped(order, i, a[i - 1] % (i + 1)), a, b, i - 1);
    }
  }

  function Below(n: nat): (s: set<nat>)
    ensures |s| == n && forall k: nat :: k in s <==> k < n
  {
    if n == 0 then {} else Below(n - 1) + {n - 1}
  }

  function Members(order: seq<nat>): (s: set<nat>)
    ensures forall k :: k in s <==> k in order
  {
    if order == [] then {} else Members(order[1..]) + {order[0]}
  }

  predicate AllDistinct(order: seq<nat>) {
    forall i, j | 0 <= i < j < |order| :: order[i] != order[j]
  }

  lemma DistinctTail(order: seq<nat>)
    requires order != [] && AllDistinct(order)
    ensures AllDistinct(order[1..]) && order[0] !in order[1..]
  {}

  lemma {:induction false} MembersSize(order: seq<nat>)
    requires AllDistinct(order)
    ensures |Members(order)| == |order|
  {
    if order != [] {
      DistinctTail(order);
      MembersSize(order[1..]);
    }
  }

  lemma {:induction false} SubsetSize(a: set<nat>, b: set<nat>)
    requires a <= b
    ensures |a| <= |b|
  {
    if a != {} {
      var x :| x in a;
      SubsetSize(a - {x}, b - {x});
    }
  }

  /** An order leaves no entry out. */
  lemma OrderIsOnto(order: seq<nat>, n: nat, x: nat)
    requires IsOrder(order, n) && x < n
    ensures x in order
  {
    MembersSize(order);
    if x !in order { SubsetSize(Members(order), Below(n) - {x}); }
  }

  // ---------- What is to be written ----------

  function Listed(x: Entry): seq<Ext> {
    if x.outer.Some? then [Ext(x.typ, x.outer.value)] else []
  }

  function ListedPlain(x: Entry): seq<Ext> {
    if x.inner.Plain? then [Ext(x.typ, x.inner.body)] else []
  }

  function ListedCompressed(x: Entry): seq<Ext> {
    if x.inner.Compressed? then [Ext(x.typ, x.inner.body)] else []
  }

  /** What the entries at the first k places write into an outer hello, into an
      inner hello as it is, and into an inner hello by reference. */
  function OuterOf(t: seq<Entry>, order: seq<nat>, k: nat): seq<Ext>
    requires IsOrder(order, |t|) && k <= |t|
  {
    if k == 0 then [] else OuterOf(t, order, k - 1) + Listed(t[order[k - 1]])
  }

  function PlainOf(t: seq<Entry>, order: seq<nat>, k: nat): seq<Ext>
    requires IsOrder(order, |t|) && k <= |t|
  {
    if k == 0 then [] else PlainOf(t, order, k - 1) + ListedPlain(t[order[k - 1]])
  }

  function CompressedOf(t: seq<Entry>, order: seq<nat>, k: nat): seq<Ext>
    requires IsOrder(order, |t|) && k <= |t|
  {
    if k == 0 then [] else CompressedOf(t, order, k - 1) + ListedCompressed(t[order[k - 1]])
  }

  /** The types of the two GREASE extensions, if they are sent. */
  type Greases = Option<(u16, u16)>

  predicate GreaseOk(g: Greases) {
    g.Some? ==> IsGrease(g.value.0) && IsGrease(g.value.1) && g.value.0 != g.value.1
  }

  /** The GREASE extensions of two seeds. */
  function GreaseOf(seed1: bv8, seed2: bv8): Greases {
    Some((Grease1(seed1) as u16, Grease2(seed1, seed2) as u16))
  }

  /** A word is of one of sixteen values, as bits and as a number. */
  lemma GreaseNumber(w: bv16)
    requires GreaseForm(w)
    ensures IsGrease(w as u16)
  {
    SixteenWords(w);
  }

  lemma SixteenWords(w: bv16)
    requires GreaseForm(w)
    ensures w in {0x0a0a, 0x1a1a, 0x2a2a, 0x3a3a, 0x4a4a, 0x5a5a, 0x6a6a, 0x7a7a,
                  0x8a8a, 0x9a9a, 0xaaaa, 0xbaba, 0xcaca, 0xdada, 0xeaea, 0xfafa}
  {}

  /** For any seeds the two types are as the writers need them: GREASE values,
      and apart. */
  lemma GreaseSeedsOk(seed1: bv8, seed2: bv8)
    ensures GreaseOk(GreaseOf(seed1, seed2))
  {
    GreaseDiffers(seed1, seed2);
    var (a, b) := (Grease1(seed1), Grease2(seed1, seed2));
    hide Grease1, Grease2, IsGrease;
    GreaseNumber(a);
    GreaseNumber(b);
    NumberBack(a);
    NumberBack(b);
  }

  lemma NumberBack(w: bv16)
    requires GreaseForm(w)
    ensures (w as u16) as bv16 == w
  {
    SixteenWords(w);
  }

  function GreaseFirst(g: Greases): seq<Ext> {
    if g.Some? then [Ext(g.value.0, [])] else []
  }

  function GreaseLast(g: Greases): seq<Ext> {
    if g.Some? then [Ext(g.value.1, [0])] else []
  }

  function Psk(psk: Option<bytes>): seq<Ext> {
    if psk.Some? then [Ext(PRE_SHARED_KEY, psk.value)] else []
  }

  function ZeroBytes(n: nat): (s: bytes)
    ensures |s| == n
  {
    seq(n, _ => 0)
  }

  function Pad(padding: nat): seq<Ext> {
    if padding == 0 then [] else [Ext(PADDING, ZeroBytes(padding))]
  }

  /** Everything sent by reference. */
  function AllCompressed(t: seq<Entry>, order: seq<nat>, g: Greases): seq<Ext>
    requires IsOrder(order, |t|)
  {
    GreaseFirst(g) + CompressedOf(t, order, |t|) + GreaseLast(g)
  }

  function TypeList(types: seq<u16>): bytes {
    if types == [] then [] else Put(types[0], 2) + TypeList(types[1..])
  }

  /** ech_outer_extensions, naming the types left out. */
  function Reference(xs: seq<Ext>): seq<Ext> {
    if xs == [] then [] else [Ext(ECH_OUTER_EXTENSIONS, PutPrefixed(TypeList(Types(xs)), 1))]
  }

  function RealExts(t: seq<Entry>, order: seq<nat>, g: Greases, psk: Option<bytes>): seq<Ext>
    requires IsOrder(order, |t|)
  {
    PlainOf(t, order, |t|) + AllCompressed(t, order, g) + Psk(psk)
  }

  function EncodedExts(t: seq<Entry>, order: seq<nat>, g: Greases, psk: Option<bytes>): seq<Ext>
    requires IsOrder(order, |t|)
  {
    PlainOf(t, order, |t|) + Reference(AllCompressed(t, order, g)) + Psk(psk)
  }

  function OuterExts(t: seq<Entry>, order: seq<nat>, g: Greases, padding: nat, psk: Option<bytes>): seq<Ext>
    requires IsOrder(order, |t|)
  {
    GreaseFirst(g) + OuterOf(t, order, |t|) + GreaseLast(g) + Pad(padding) + Psk(psk)
  }

  // ---------- Writing ----------

  function BitSet(sent: nat, i: nat): nat { Or(sent, Pow2(i)) }

  lemma BitSetMeans(sent: nat, i: nat, k: nat)
    ensures Bit(BitSet(sent, i), k) == (Bit(sent, k) || k == i)
  {
    BitOr(sent, Pow2(i), k);
    BitPow2(i, k);
  }

  /** sent names exactly the entries of the first k places that satisfy wrote. */
  predicate SentExactly(sent: nat, order: seq<nat>, k: nat, wrote: seq<bool>)
    requires k <= |order| == |wrote|
  {
    forall i | 0 <= i < |wrote| :: Bit(sent, i) <==> i in order[..k] && wrote[i]
  }

  lemma SentGrows(sent: nat, order: seq<nat>, k: nat, wrote: seq<bool>)
    requires k < |order| == |wrote| && order[k] < |wrote| && SentExactly(sent, order, k, wrote)
    ensures SentExactly(if wrote[order[k]] then BitSet(sent, order[k]) else sent, order, k + 1, wrote)
  {
    assert order[..k + 1] == order[..k] + [order[k]];
    forall i | 0 <= i < |wrote|
      ensures Bit(if wrote[order[k]] then BitSet(sent, order[k]) else sent, i) <==> i in order[..k + 1] && wrote[i]
    {
      BitSetMeans(sent, order[k], i);
    }
  }

  /** Having visited every place, sent names exactly the entries that wrote. */
  lemma SentAll(sent: nat, order: seq<nat>, wrote: seq<bool>)
    requires IsOrder(order, |wrote|) && SentExactly(sent, order, |wrote|, wrote)
    ensures forall i | 0 <= i < |wrote| :: Bit(sent, i) == wrote[i]
  {
    assert order[..|wrote|] == order;
    forall i | 0 <= i < |wrote| ensures Bit(sent, i) == wrote[i] { OrderIsOnto(order, |wrote|, i); }
  }

  function WroteInner(t: seq<Entry>): (r: seq<bool>)
    ensures |r| == |t|
  {
    seq(|t|, i requires 0 <= i < |t| => !t[i].inner.Nothing?)
  }

  function WroteOuter(t: seq<Entry>): (r: seq<bool>)
    ensures |r| == |t|
  {
    seq(|t|, i requires 0 <= i < |t| => t[i].outer.Some?)
  }

  lemma {:induction false} TypeListAppend(a: seq<u16>, b: seq<u16>)
    ensures TypeList(a + b) == TypeList(a) + TypeList(b)
  {
    if a == [] {
      assert a + b == b;
    } else {
      assert (a + b)[1..] == a[1..] + b;
      TypeListAppend(a[1..], b);
    }
  }

  lemma AddExt(xs: seq<Ext>, x: Ext)
    ensures Encode(xs + [x]) == Encode(xs) + EncodeExt(x)
    ensures TypeList(Types(xs + [x])) == TypeList(Types(xs)) + Put(x.typ, 2)
  {
    EncodeAppend(xs, [x]);
    EncodeOne(x);
    assert Types(xs + [x]) == Types(xs) + [x.typ];
    TypeListAppend(Types(xs), [x.typ]);
    assert TypeList([x.typ]) == Put(x.typ, 2) + TypeList([x.typ][1..]);
  }

  /** The state of ssl_add_clienthello_tlsext_inner after the first k places. */
  ghost predicate InnerAt(t: seq<Entry>, order: seq<nat>, g: Greases, k: nat,
                          extensions: bytes, compressed: bytes, outerTypes: bytes, sent: nat)
    requires IsOrder(order, |t|) && k <= |t|
  {
    var xs := GreaseFirst(g) + CompressedOf(t, order, k);
    && extensions == Encode(PlainOf(t, order, k))
    && compressed == Encode(xs) && outerTypes == TypeList(Types(xs))
    && SentExactly(sent, order, k, WroteInner(t))
  }

  /** The loop over the table. */
  method WriteInnerTable(t: seq<Entry>, order: seq<nat>, g: Greases)
      returns (extensions: bytes, compressed: bytes, outerTypes: bytes, sent: nat)
    requires IsOrder(order, |t|)
    ensures InnerAt(t, order, g, |t|, extensions, compressed, outerTypes, sent)
  {
    hide InnerAt, EncodeExt, BitSet, AllDistinct, Put;
    extensions, compressed, outerTypes, sent := [], [], [], 0;
    if g.Some? {
      compressed, outerTypes := EncodeExt(Ext(g.value.0, [])), Put(g.value.0, 2);
    }
    InnerStart(t, order, g);
    var k := 0;
    while k < |t|
      invariant 0 <= k <= |t|
      invariant InnerAt(t, order, g, k, extensions, compressed, outerTypes, sent)
    {
      var i := order[k];
      InnerNext(t, order, g, k, extensions, compressed, outerTypes, sent);
      match t[i].inner {
        case Nothing =>
        case Plain(body) =>
          extensions := extensions + EncodeExt(Ext(t[i].typ, body));
          sent := BitSet(sent, i);
        case Compressed(body) =>
          compressed := compressed + EncodeExt(Ext(t[i].typ, body));
          sent := BitSet(sent, i);
          outerTypes := outerTypes + Put(t[i].typ, 2);
      }
      k := k + 1;
    }
  }

  lemma InnerStart(t: seq<Entry>, order: seq<nat>, g: Greases)
    requires IsOrder(order, |t|)
    ensures g.None? ==> InnerAt(t, order, g, 0, [], [], [], 0)
    ensures g.Some? ==> InnerAt(t, order, g, 0, [], EncodeExt(Ext(g.value.0, [])), Put(g.value.0, 2), 0)
  {
    assert GreaseFirst(g) + [] == GreaseFirst(g);
    if g.Some? {
      AddExt([], Ext(g.value.0, []));
      assert [] + GreaseFirst(g) == GreaseFirst(g);
    }
    forall i: nat ensures !Bit(0, i) { BitZero(i); }
  }

  lemma InnerNext(t: seq<Entry>, order: seq<nat>, g: Greases, k: nat,
                  extensions: bytes, compressed: bytes, outerTypes: bytes, sent: nat)
    requires IsOrder(order, |t|) && k < |t| && InnerAt(t, order, g, k, extensions, compressed, outerTypes, sent)
    ensures var x := t[order[k]];
            match x.inner
            case Nothing => InnerAt(t, order, g, k + 1, extensions, compressed, outerTypes, sent)
            case Plain(body) =>
              InnerAt(t, order, g, k + 1, extensions + EncodeExt(Ext(x.typ, body)), compressed, outerTypes, BitSet(sent, order[k]))
            case Compressed(body) =>
              InnerAt(t, order, g, k + 1, extensions, compressed + EncodeExt(Ext(x.typ, body)),
                      outerTypes + Put(x.typ, 2), BitSet(sent, order[k]))
  {
    var x := t[order[k]];
    var xs := GreaseFirst(g) + CompressedOf(t, order, k);
    SentGrows(sent, order, k, WroteInner(t));
    TableGrows(t, order, k);
    hide SentExactly, Encode, TypeList, Types, EncodeExt, BitSet, AllDistinct, PlainOf, CompressedOf, GreaseFirst;
    match x.inner {
      case Nothing =>
        NoMore(PlainOf(t, order, k));
        NoMore(CompressedOf(t, order, k));
      case Plain(body) =>
        AddExt(PlainOf(t, order, k), Ext(x.typ, body));
        NoMore(CompressedOf(t, order, k));
      case Compressed(body) =>
        AddExt(xs, Ext(x.typ, body));
        NoMore(PlainOf(t, order, k));
        Shift(GreaseFirst(g), CompressedOf(t, order, k), Ext(x.typ, body));
    }
  }

  lemma TableGrows(t: seq<Entry>, order: seq<nat>, k: nat)
    requires IsOrder(order, |t|) && k < |t|
    ensures PlainOf(t, order, k + 1) == PlainOf(t, order, k) + ListedPlain(t[order[k]])
    ensures CompressedOf(t, order, k + 1) == CompressedOf(t, order, k) + ListedCompressed(t[order[k]])
    ensures OuterOf(t, order, k + 1) == OuterOf(t, order, k) + Listed(t[order[k]])
  {}

  lemma NoMore(xs: seq<Ext>)
    ensures xs + [] == xs
  {}

  lemma Shift(a: seq<Ext>, b: seq<Ext>, x: Ext)
    ensures a + b + [x] == a + (b + [x])
  {}

  /** ssl_add_clienthello_tlsext_inner: the extensions of the inner hello and of
      its encoded form.  It fails when a length does not fit its prefix. */
  method WriteInner(t: seq<Entry>, order: seq<nat>, g: Greases, psk: Option<bytes>)
      returns (ok: bool, whole: bytes, encoded: bytes, sent: nat)
    requires IsOrder(order, |t|)
    ensures ok <==>
            && |TypeList(Types(AllCompressed(t, order, g)))| < Limit(1)
            && |Encode(RealExts(t, order, g, psk))| < Limit(2) && |Encode(EncodedExts(t, order, g, psk))| < Limit(2)
    ensures ok ==> whole == PutPrefixed(Encode(RealExts(t, order, g, psk)), 2)
    ensures ok ==> encoded == PutPrefixed(Encode(EncodedExts(t, order, g, psk)), 2)
    ensures forall i | 0 <= i < |t| :: Bit(sent, i) == !t[i].inner.Nothing?
  {
    hide Encode, TypeList, Types, EncodeExt, Limit, Put, PlainOf, CompressedOf, AllDistinct, Bit;
    var extensions, compressed, outerTypes;
    extensions, compressed, outerTypes, sent := WriteInnerTable(t, order, g);
    SentAll(sent, order, WroteInner(t));
    ghost var xs := GreaseFirst(g) + CompressedOf(t, order, |t|);
    compressed := compressed + if g.Some? then EncodeExt(Ext(g.value.1, [0])) else [];
    outerTypes := outerTypes + if g.Some? then Put(g.value.1, 2) else [];
    GreaseEnds(xs, g);
    CompressedEmpty(AllCompressed(t, order, g));
    // Copied as they are in the real hello, replaced by a reference in the
    // encoded one.
    var reference: bytes := [];
    if |compressed| != 0 {
      if |outerTypes| >= Limit(1) {
        return false, [], [], sent;
      }
      reference := EncodeExt(Ext(ECH_OUTER_EXTENSIONS, PutPrefixed(outerTypes, 1)));
    }
    var pskBytes := if psk.Some? then EncodeExt(Ext(PRE_SHARED_KEY, psk.value)) else [];
    var block, short := extensions + compressed + pskBytes, extensions + reference + pskBytes;
    InnerBlocks(PlainOf(t, order, |t|), AllCompressed(t, order, g), psk);
    if |block| >= Limit(2) || |short| >= Limit(2) {
      return false, [], [], sent;
    }
    return true, PutPrefixed(block, 2), PutPrefixed(short, 2), sent;
  }

  lemma GreaseEnds(xs: seq<Ext>, g: Greases)
    ensures Encode(xs + GreaseLast(g)) == Encode(xs) + if g.Some? then EncodeExt(Ext(g.value.1, [0])) else []
    ensures TypeList(Types(xs + GreaseLast(g))) == TypeList(Types(xs)) + if g.Some? then Put(g.value.1, 2) else []
  {
    if g.Some? { AddExt(xs, Ext(g.value.1, [0])); } else { NoMore(xs); }
  }

  lemma CompressedEmpty(xs: seq<Ext>)
    ensures Encode(xs) == [] <==> xs == []
    ensures xs == [] ==> TypeList(Types(xs)) == [] && Limit(1) == 256
  {
    if xs != [] { ExtNotEmpty(xs[0]); }
  }

  lemma InnerBlocks(plain: seq<Ext>, xs: seq<Ext>, psk: Option<bytes>)
    ensures Encode(plain + xs + Psk(psk)) ==
            Encode(plain) + Encode(xs) + if psk.Some? then EncodeExt(Ext(PRE_SHARED_KEY, psk.value)) else []
    ensures Encode(plain + Reference(xs) + Psk(psk)) ==
            Encode(plain)
            + (if xs == [] then [] else EncodeExt(Ext(ECH_OUTER_EXTENSIONS, PutPrefixed(TypeList(Types(xs)), 1))))
            + if psk.Some? then EncodeExt(Ext(PRE_SHARED_KEY, psk.value)) else []
  {
    hide Types, TypeList, EncodeExt, PutPrefixed;
    EncodeAppend(plain, xs);
    EncodeAppend(plain + xs, Psk(psk));
    EncodeAppend(plain, Reference(xs));
    EncodeAppend(plain + Reference(xs), Psk(psk));
    if psk.Some? { EncodeOne(Ext(PRE_SHARED_KEY, psk.value)); }
    if xs != [] { EncodeOne(Ext(ECH_OUTER_EXTENSIONS, PutPrefixed(TypeList(Types(xs)), 1))); }
  }

  // ---------- The outer hello ----------

  /** How much padding a hello of len bytes with its extensions so far gets: one
      byte when the last entry's extension was empty and nothing follows, and
      enough to leave the range 256 to 511. */
  function OuterPadding(len: nat, lastWasEmpty: bool): nat {
    var first := if lastWasEmpty then 1 else 0;
    var now := len + if lastWasEmpty then 4 + first else 0;
    if 0xff < now < 0x200 then
      var left := 0x200 - len;
      if left >= 4 + 1 then left - 4 else 1
    else first
  }

  /** With its padding extension, if any, no hello is 256 to 511 bytes long, and
      padding is never empty. */
  lemma PaddingAvoidsRange(len: nat, lastWasEmpty: bool)
    ensures var p := OuterPadding(len, lastWasEmpty);
            var total := len + if p == 0 then 0 else 4 + p;
            && !(0xff < total < 0x200)
            && (lastWasEmpty ==> p > 0)
            && (p == 0 <==> !lastWasEmpty && !(0xff < len < 0x200))
  {}

  /** Padding fills a hello up to 512 bytes, or takes the least an extension can
      take; and one that needs none but must not end with an empty extension gets
      one byte. */
  lemma PaddingExact(len: nat, lastWasEmpty: bool)
    ensures var p := OuterPadding(len, lastWasEmpty);
            var total := len + if p == 0 then 0 else 4 + p;
            var least := len + if lastWasEmpty then 5 else 0;
            total == if 256 <= least <= 511 then (if len + 5 <= 512 then 512 else len + 5) else least
  {}

  predicate LastEmpty(t: seq<Entry>, order: seq<nat>, g: Greases)
    requires IsOrder(order, |t|)
  {
    g.None? && |t| > 0 && t[order[|t| - 1]].outer == Some([])
  }

  function PskLength(psk: Option<bytes>): nat {
    if psk.Some? then 4 + |psk.value| else 0
  }

  /** SSL3_HM_HEADER_LENGTH and the length prefix of the block. */
  const FRAME := 6

  function PaddingOf(t: seq<Entry>, order: seq<nat>, g: Greases, psk: Option<bytes>, header: nat, pads: bool): nat
    requires IsOrder(order, |t|)
  {
    if !pads then 0
    else
      OuterPadding(header + FRAME + |Encode(GreaseFirst(g) + OuterOf(t, order, |t|) + GreaseLast(g))| + PskLength(psk),
                   LastEmpty(t, order, g) && psk.None?)
  }

  ghost predicate OuterAt(t: seq<Entry>, order: seq<nat>, g: Greases, k: nat, extensions: bytes, sent: nat, lastWasEmpty: bool)
    requires IsOrder(order, |t|) && k <= |t|
  {
    && extensions == Encode(GreaseFirst(g) + OuterOf(t, order, k))
    && SentExactly(sent, order, k, WroteOuter(t))
    && lastWasEmpty == (k > 0 && t[order[k - 1]].outer == Some([]))
  }

  lemma OuterStart(t: seq<Entry>, order: seq<nat>, g: Greases)
    requires IsOrder(order, |t|)
    ensures OuterAt(t, order, g, 0, if g.Some? then EncodeExt(Ext(g.value.0, [])) else [], 0, false)
  {
    NoMore(GreaseFirst(g));
    if g.Some? { EncodeOne(Ext(g.value.0, [])); }
    forall i: nat ensures !Bit(0, i) { BitZero(i); }
  }

  lemma OuterNext(t: seq<Entry>, order: seq<nat>, g: Greases, k: nat, extensions: bytes, sent: nat, lastWasEmpty: bool)
    requires IsOrder(order, |t|) && k < |t| && OuterAt(t, order, g, k, extensions, sent, lastWasEmpty)
    ensures var x := t[order[k]];
            match x.outer
            case None => OuterAt(t, order, g, k + 1, extensions, sent, false)
            case Some(body) =>
              OuterAt(t, order, g, k + 1, extensions + EncodeExt(Ext(x.typ, body)), BitSet(sent, order[k]), body == [])
  {
    var x := t[order[k]];
    SentGrows(sent, order, k, WroteOuter(t));
    TableGrows(t, order, k);
    hide SentExactly, Encode, TypeList, Types, EncodeExt, BitSet, AllDistinct, OuterOf, GreaseFirst;
    match x.outer {
      case None => NoMore(OuterOf(t, order, k));
      case Some(body) =>
        AddExt(GreaseFirst(g) + OuterOf(t, order, k), Ext(x.typ, body));
        Shift(GreaseFirst(g), OuterOf(t, order, k), Ext(x.typ, body));
    }
  }

  /** An extension just written was empty if it took four bytes. */
  lemma FourBytes(x: Ext)
    ensures |EncodeExt(x)| == 4 + |x.body|
  {}

  method WriteOuterTable(t: seq<Entry>, order: seq<nat>, g: Greases) returns (extensions: bytes, sent: nat, lastWasEmpty: bool)
    requires IsOrder(order, |t|)
    ensures OuterAt(t, order, g, |t|, extensions, sent, lastWasEmpty)
  {
    hide OuterAt, EncodeExt, BitSet, AllDistinct, Put;
    extensions, sent, lastWasEmpty := [], 0, false;
    if g.Some? {
      extensions := EncodeExt(Ext(g.value.0, []));
    }
    OuterStart(t, order, g);
    var k := 0;
    while k < |t|
      invariant 0 <= k <= |t|
      invariant OuterAt(t, order, g, k, extensions, sent, lastWasEmpty)
    {
      var i := order[k];
      OuterNext(t, order, g, k, extensions, sent, lastWasEmpty);
      var lenBefore := |extensions|;
      if t[i].outer.Some? {
        FourBytes(Ext(t[i].typ, t[i].outer.value));
        extensions := extensions + EncodeExt(Ext(t[i].typ, t[i].outer.value));
      }
      if |extensions| - lenBefore != 0 {
        sent := BitSet(sent, i);
      }
      lastWasEmpty := |extensions| - lenBefore == 4;
      k := k + 1;
    }
  }

  /** ssl_add_clienthello_tlsext for a hello sent in the clear; pads says that this
      is TLS, not QUIC, and no retry.  An empty block is left out altogether. */
  method WriteOuter(t: seq<Entry>, order: seq<nat>, g: Greases, psk: Option<bytes>, header: nat, pads: bool)
      returns (ok: bool, out: bytes, sent: nat)
    requires IsOrder(order, |t|)
    ensures var xs := OuterExts(t, order, g, PaddingOf(t, order, g, psk, header, pads), psk);
            && (ok <==> |Encode(xs)| < Limit(2))
            && (ok ==> out == if xs == [] then [] else PutPrefixed(Encode(xs), 2))
    ensures forall i | 0 <= i < |t| :: Bit(sent, i) == t[i].outer.Some?
  {
    hide Encode, EncodeExt, Limit, Put, OuterOf, AllDistinct, Bit, OuterPadding;
    var extensions, lastWasEmpty;
    extensions, sent, lastWasEmpty := WriteOuterTable(t, order, g);
    SentAll(sent, order, WroteOuter(t));
    ghost var xs := GreaseFirst(g) + OuterOf(t, order, |t|);
    GreaseEnds(xs, g);
    extensions := extensions + if g.Some? then EncodeExt(Ext(g.value.1, [0])) else [];
    if g.Some? {
      lastWasEmpty := false;
    }
    var padding := 0;
    if pads {
      padding := OuterPadding(header + FRAME + |extensions| + PskLength(psk), lastWasEmpty && psk.None?);
    }
    PadEnds(xs + GreaseLast(g), padding, psk);
    extensions := extensions
                  + (if padding == 0 then [] else EncodeExt(Ext(PADDING, ZeroBytes(padding))))
                  + if psk.Some? then EncodeExt(Ext(PRE_SHARED_KEY, psk.value)) else [];
    CompressedEmpty(OuterExts(t, order, g, padding, psk));
    if |extensions| >= Limit(2) {
      return false, [], sent;
    }
    return true, if |extensions| == 0 then [] else PutPrefixed(extensions, 2), sent;
  }

  lemma PadEnds(xs: seq<Ext>, padding: nat, psk: Option<bytes>)
    ensures Encode(xs + Pad(padding) + Psk(psk)) ==
            Encode(xs)
            + (if padding == 0 then [] else EncodeExt(Ext(PADDING, ZeroBytes(padding))))
            + if psk.Some? then EncodeExt(Ext(PRE_SHARED_KEY, psk.value)) else []
  {
    hide EncodeExt;
    EncodeAppend(xs, Pad(padding));
    EncodeAppend(xs + Pad(padding), Psk(psk));
    if psk.Some? { EncodeOne(Ext(PRE_SHARED_KEY, psk.value)); }
    if padding != 0 { EncodeOne(Ext(PADDING, ZeroBytes(padding))); }
  }
}
