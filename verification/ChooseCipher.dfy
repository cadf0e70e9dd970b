/** The server's choice of a cipher suite, with equal-preference groups. */
module ChooseCipher {

  import opened Bytes

  type Cipher = nat

  /** One side's list in order of preference.  flags[i] says that entry i is of
      the same group as entry i + 1; there are no flags on a client's list. */
  datatype Preferences = Preferences(ciphers: seq<Cipher>, flags: Option<seq<bool>>)

  predicate PreferencesOk(p: Preferences) {
    p.flags.Some? ==> |p.flags.value| == |p.ciphers|
  }

  predicate Joined(p: Preferences, i: nat)
    requires PreferencesOk(p) && i < |p.ciphers|
  {
    p.flags.Some? && p.flags.value[i]
  }

  /** The flags end every group; the parser of cipher lists sees to it. */
  predicate GroupsEnd(p: Preferences)
    requires PreferencesOk(p)
  {
    p.ciphers != [] ==> !Joined(p, |p.ciphers| - 1)
  }

  /** sk_SSL_CIPHER_find: where c first occurs. */
  function Find(allow: seq<Cipher>, c: Cipher): (r: Option<nat>)
    ensures r.Some? ==> r.value < |allow| && allow[r.value] == c && c !in allow[..r.value]
    ensures r.None? ==> c !in allow
  {
    if allow == [] then None
    else if allow[0] == c then Some(0)
    else
      match Find(allow[1..], c)
      case None => None
      case Some(i) => Some(i + 1)
  }

  /** Entry i is usable with this version and key, and the other side has it. */
  predicate Acceptable(p: Preferences, allow: seq<Cipher>, usable: set<Cipher>, i: nat) {
    i < |p.ciphers| && p.ciphers[i] in usable && p.ciphers[i] in allow
  }

  function Rank(p: Preferences, allow: seq<Cipher>, i: nat): nat
    requires i < |p.ciphers| && p.ciphers[i] in allow
  {
    Find(allow, p.ciphers[i]).value
  }

  /** Entries i to j are of one group. */
  predicate SameGroup(p: Preferences, i: nat, j: nat)
    requires PreferencesOk(p) && j < |p.ciphers|
  {
    forall k | i <= k < j :: Joined(p, k)
  }

  /** i is the choice: of all acceptable entries none is in an earlier group, and
      of those in its group none is preferred by the other side. */
  predicate Best(p: Preferences, allow: seq<Cipher>, usable: set<Cipher>, i: nat)
    requires PreferencesOk(p)
  {
    && Acceptable(p, allow, usable, i)
    && (forall j | 0 <= j < i && Acceptable(p, allow, usable, j) :: SameGroup(p, j, i))
    && (forall j | 0 <= j < |p.ciphers| && Acceptable(p, allow, usable, j) && Together(p, i, j) ::
          Rank(p, allow, i) <= Rank(p, allow, j))
  }

  predicate Together(p: Preferences, i: nat, j: nat)
    requires PreferencesOk(p) && i < |p.ciphers| && j < |p.ciphers|
  {
    if i <= j then SameGroup(p, i, j) else SameGroup(p, j, i)
  }

  /** Entry j is acceptable but its group never ends. */
  predicate Unfinished(p: Preferences, j: nat)
    requires PreferencesOk(p)
  {
    forall k | j <= k < |p.ciphers| :: Joined(p, k)
  }

  /** What the scan of the first i entries has found: nothing acceptable, or b, the
      best of a group that is still open. */
  predicate Scanned(p: Preferences, allow: seq<Cipher>, usable: set<Cipher>, i: nat, groupMin: Option<nat>, b: nat)
    requires PreferencesOk(p) && i <= |p.ciphers|
  {
    match groupMin
    case None => forall j | 0 <= j < i :: !Acceptable(p, allow, usable, j)
    case Some(m) =>
      && b < i && Acceptable(p, allow, usable, b) && Rank(p, allow, b) == m
      && (forall j | 0 <= j < i && Acceptable(p, allow, usable, j) ::
            Open(p, j, i) && m <= Rank(p, allow, j))
  }

  /** The group of j goes on at i. */
  predicate Open(p: Preferences, j: nat, i: nat)
    requires PreferencesOk(p) && i <= |p.ciphers|
  {
    forall k | j <= k < i :: Joined(p, k)
  }

  /** Entry i takes the place of b when it ranks lower. */
  function Better(p: Preferences, allow: seq<Cipher>, usable: set<Cipher>, i: nat, groupMin: Option<nat>, b: nat): nat
    requires i < |p.ciphers|
  {
    if Acceptable(p, allow, usable, i) && (groupMin.None? || groupMin.value > Rank(p, allow, i)) then i else b
  }

  lemma ScanOn(p: Preferences, allow: seq<Cipher>, usable: set<Cipher>, i: nat, groupMin: Option<nat>, b: nat)
    requires PreferencesOk(p) && i < |p.ciphers| && Scanned(p, allow, usable, i, groupMin, b)
    requires Joined(p, i) || (groupMin.None? && !Acceptable(p, allow, usable, i))
    ensures var b' := Better(p, allow, usable, i, groupMin, b);
            var m' := if b' == i && Acceptable(p, allow, usable, i) then Some(Rank(p, allow, i)) else groupMin;
            Scanned(p, allow, usable, i + 1, m', b')
  {
    forall j | 0 <= j < i && Acceptable(p, allow, usable, j) && groupMin.Some? ensures Open(p, j, i + 1) {
      assert Open(p, j, i);
    }
  }

  /** When the group closes at i, the better of b and i is the choice. */
  lemma ScanDone(p: Preferences, allow: seq<Cipher>, usable: set<Cipher>, i: nat, groupMin: Option<nat>, b: nat)
    requires PreferencesOk(p) && i < |p.ciphers| && Scanned(p, allow, usable, i, groupMin, b)
    requires !Joined(p, i) && (groupMin.Some? || Acceptable(p, allow, usable, i))
    ensures var b' := Better(p, allow, usable, i, groupMin, b);
            Best(p, allow, usable, b') && !Unfinished(p, b')
  {
    var b' := Better(p, allow, usable, i, groupMin, b);
    forall j | 0 <= j < b' && Acceptable(p, allow, usable, j) ensures SameGroup(p, j, b') {
      assert Open(p, j, i);
    }
    forall j | i < j < |p.ciphers| ensures !SameGroup(p, b', j) { assert !Joined(p, i); }
    forall j | 0 <= j < |p.ciphers| && Acceptable(p, allow, usable, j) && Together(p, b', j)
      ensures Rank(p, allow, b') <= Rank(p, allow, j)
    {
    }
  }

  /** choose_cipher, given the two lists in the order the options ask for: the
      other side's favourite in the first group with anything acceptable. */
  method Choose(p: Preferences, allow: seq<Cipher>, usable: set<Cipher>) returns (r: Option<Cipher>)
    requires PreferencesOk(p)
    ensures r.Some? ==> exists b | 0 <= b < |p.ciphers| :: Best(p, allow, usable, b) && r.value == p.ciphers[b]
    ensures r.None? <==> forall j | 0 <= j < |p.ciphers| && Acceptable(p, allow, usable, j) :: Unfinished(p, j)
  {
    var groupMin: Option<nat> := None;
    ghost var b := 0;
    var i := 0;
    while i < |p.ciphers|
      invariant 0 <= i <= |p.ciphers|
      invariant Scanned(p, allow, usable, i, groupMin, b)
      invariant groupMin.Some? ==> p.flags.Some?
    {
      var c := p.ciphers[i];
      var index := if c in usable then Find(allow, c) else None;
      assert index.Some? <==> Acceptable(p, allow, usable, i);
      if Joined(p, i) || (groupMin.None? && index.None?) { ScanOn(p, allow, usable, i, groupMin, b); }
      else { ScanDone(p, allow, usable, i, groupMin, b); }
      b := Better(p, allow, usable, i, groupMin, b);
      if index.Some? {
        if p.flags.Some? && p.flags.value[i] {
          if groupMin.None? || groupMin.value > index.value {
            groupMin := index;
          }
        } else {
          var best := index.value;
          if groupMin.Some? && groupMin.value < best {
            best := groupMin.value;
          }
          return Some(allow[best]);
        }
      }
      if p.flags.Some? && !p.flags.value[i] && groupMin.Some? {
        return Some(allow[groupMin.value]);
      }
      i := i + 1;
    }
    return None;
  }

  /** The choice is unique: the server's order and the client's settle it. */
  lemma BestUnique(p: Preferences, allow: seq<Cipher>, usable: set<Cipher>, a: nat, b: nat)
    requires PreferencesOk(p) && Best(p, allow, usable, a) && Best(p, allow, usable, b)
    ensures p.ciphers[a] == p.ciphers[b]
  {
    if a < b { assert Together(p, a, b) && Together(p, b, a); }
    if b < a { assert Together(p, a, b) && Together(p, b, a); }
    assert allow[Rank(p, allow, a)] == p.ciphers[a] && allow[Rank(p, allow, b)] == p.ciphers[b];
  }

  predicate Distinct(s: seq<Cipher>) {
    forall i, j | 0 <= i < j < |s| :: s[i] != s[j]
  }

  /** Nothing is chosen just when nothing is acceptable, for all lists of the
      other side, if and only if the flags end every group. */
  lemma NoneExact(p: Preferences)
    requires PreferencesOk(p) && Distinct(p.ciphers)
    ensures GroupsEnd(p) <==>
            forall allow: seq<Cipher>, usable: set<Cipher> :: NoneMeansNone(p, allow, usable)
  {
    if GroupsEnd(p) {
      forall allow: seq<Cipher>, usable: set<Cipher> ensures NoneMeansNone(p, allow, usable) {
        forall j | 0 <= j < |p.ciphers| ensures !Unfinished(p, j) { assert !Joined(p, |p.ciphers| - 1); }
      }
    } else {
      var last := |p.ciphers| - 1;
      var c := p.ciphers[last];
      assert Acceptable(p, [c], {c}, last);
      assert !NoneMeansNone(p, [c], {c});
    }
  }

  predicate NoneMeansNone(p: Preferences, allow: seq<Cipher>, usable: set<Cipher>)
    requires PreferencesOk(p)
  {
    (forall j | 0 <= j < |p.ciphers| && Acceptable(p, allow, usable, j) :: Unfinished(p, j))
    ==> forall j | 0 <= j < |p.ciphers| :: !Acceptable(p, allow, usable, j)
  }

  /** Without groups the choice is the first acceptable entry. */
  lemma WithoutGroups(p: Preferences, allow: seq<Cipher>, usable: set<Cipher>, b: nat)
    requires p.flags.None? && Best(p, allow, usable, b)
    ensures forall j | 0 <= j < b :: !Acceptable(p, allow, usable, j)
  {
    forall j | 0 <= j < b ensures !Acceptable(p, allow, usable, j) {
      assert !SameGroup(p, j, b) by { assert !Joined(p, j); }
    }
  }
}
