/** Choosing between the decrypted and a random RSA premaster secret without
    branching on secret data (section 7.4.7.1 of RFC 5246). */
module RsaPremaster {

  /** crypto_word_t on a 64-bit machine. */
  type word = bv64

  const MASTER := 48
  const MIN_OVERHEAD := 11

  // ---------- Constant-time masks ----------

  function MsbW(a: word): word { 0 - (a >> 63) }

  function IsZeroW(a: word): word { MsbW(!a & (a - 1)) }

  function EqW(a: word, b: word): word { IsZeroW(a ^ b) }

  function Low8(a: word): bv8 { (a & 0xff) as bv8 }

  function IsZero8(a: bv8): bv8 { Low8(IsZeroW(a as word)) }

  function Eq8(a: bv8, b: bv8): bv8 { Low8(EqW(a as word, b as word)) }

  function Select8(mask: bv8, a: bv8, b: bv8): bv8 {
    Low8((mask as word & a as word) | (!(mask as word) & b as word))
  }

  predicate IsMask(m: bv8) { m == 0 || m == 0xff }

  lemma IsZeroWMeans(a: word)
    ensures IsZeroW(a) == if a == 0 then 0xffff_ffff_ffff_ffff else 0
  {}

  lemma IsZero8Means(a: bv8)
    ensures IsZero8(a) == if a == 0 then 0xff else 0
  {
    IsZeroWMeans(a as word);
    assert (a as word == 0) == (a == 0);
  }

  lemma Eq8Means(a: bv8, b: bv8)
    ensures Eq8(a, b) == if a == b then 0xff else 0
  {
    IsZeroWMeans(a as word ^ b as word);
    XorZero(a, b);
  }

  lemma XorZero(a: bv8, b: bv8)
    ensures (a as word ^ b as word == 0) == (a == b)
  {}

  lemma Select8Means(mask: bv8, a: bv8, b: bv8)
    requires IsMask(mask)
    ensures Select8(mask, a, b) == if mask == 0xff then a else b
  {}

  lemma AndMask(m: bv8, n: bv8)
    requires IsMask(m) && IsMask(n)
    ensures IsMask(m & n) && (m & n == 0xff <==> m == 0xff && n == 0xff)
  {}

  lemma NotMask(m: bv8)
    requires IsMask(m)
    ensures IsMask(!m) && (!m == 0xff <==> m == 0)
  {}

  // ---------- The specification ----------

  /** The block 00 02, non-zero padding, 00, then a 48-byte secret that begins
      with the client's version. */
  ghost predicate WellPadded(block: seq<bv8>, version: bv16) {
    exists padding: seq<bv8>, secret: seq<bv8> ::
      && block == [0, 2] + padding + [0] + secret
      && PartsOk(padding, secret, version)
  }

  predicate PartsOk(padding: seq<bv8>, secret: seq<bv8>, version: bv16) {
    && 0 !in padding && |secret| == MASTER
    && secret[0] == (version >> 8) as bv8 && secret[1] == (version & 0xff) as bv8
  }

  /** The same, position by position. */
  predicate GoodAt(block: seq<bv8>, version: bv16)
    requires |block| >= MIN_OVERHEAD + MASTER
  {
    var n := |block| - MASTER;
    && block[0] == 0 && block[1] == 2
    && (forall i | 2 <= i < n - 1 :: block[i] != 0)
    && block[n - 1] == 0
    && block[n] == (version >> 8) as bv8 && block[n + 1] == (version & 0xff) as bv8
  }

  /** Everything of the form is long enough for a premaster, when its padding has
      at least eight bytes; the secret is its last 48. */
  lemma PaddedParts(block: seq<bv8>, version: bv16, padding: seq<bv8>, secret: seq<bv8>)
    requires 0 !in padding && |padding| >= 8 && |secret| == 48
    requires secret[0] == (version >> 8) as bv8 && secret[1] == (version & 0xff) as bv8
    requires block == [0, 2] + padding + [0] + secret
    ensures WellPadded(block, version) && |block| >= MIN_OVERHEAD + MASTER && block[|block| - MASTER..] == secret
  {
    assert PartsOk(padding, secret, version);
  }

  lemma WellPaddedAt(block: seq<bv8>, version: bv16)
    requires |block| >= MIN_OVERHEAD + MASTER
    ensures WellPadded(block, version) <==> GoodAt(block, version)
  {
    var n := |block| - MASTER;
    if GoodAt(block, version) {
      var padding, secret := block[2..n - 1], block[n..];
      assert block == [0, 2] + padding + [0] + secret;
      assert PartsOk(padding, secret, version);
    }
    if WellPadded(block, version) {
      var padding: seq<bv8>, secret: seq<bv8> :|
        block == [0, 2] + padding + [0] + secret && PartsOk(padding, secret, version);
      assert |padding| == n - 3;
      forall i | 2 <= i < n - 1 ensures block[i] != 0 { assert block[i] == padding[i - 2]; }
      assert block[n] == secret[0] && block[n + 1] == secret[1];
    }
  }

  // ---------- The branch-free code ----------

  /** Replaces the random premaster by the decrypted one exactly when the block is
      well padded.  A block too short for any premaster is refused. */
  method SelectPremaster(block: array<bv8>, version: bv16, premaster: array<bv8>) returns (ok: bool)
    requires premaster.Length == 48 && block != premaster
    modifies premaster
    ensures ok <==> block.Length >= 59
    ensures !ok ==> premaster[..] == old(premaster[..])
    ensures ok ==> premaster[..] == if WellPadded(block[..], version) then block[block.Length - 48..] else old(premaster[..])
  {
    if block.Length < MIN_OVERHEAD + MASTER {
      return false;
    }
    var n := block.Length - MASTER;
    var good := CheckPadding(block, version);
    WellPaddedAt(block[..], version);
    ghost var random := premaster[..];
    var i := 0;
    while i < MASTER
      invariant 0 <= i <= MASTER
      invariant forall j | 0 <= j < i :: premaster[j] == if good == 0xff then block[n + j] else random[j]
      invariant forall j | i <= j < MASTER :: premaster[j] == random[j]
    {
      Select8Means(good, block[n + i], premaster[i]);
      premaster[i] := Select8(good, block[n + i], premaster[i]);
      i := i + 1;
    }
    return true;
  }

  /** The mask: all ones when every check passes, all zeros otherwise. */
  method CheckPadding(block: array<bv8>, version: bv16) returns (good: bv8)
    requires block.Length >= MIN_OVERHEAD + MASTER
    ensures IsMask(good) && (good == 0xff <==> GoodAt(block[..], version))
  {
    hide Eq8, IsZero8;
    var n := block.Length - MASTER;
    Eq8Means(block[0], 0);
    Eq8Means(block[1], 2);
    AndMask(Eq8(block[0], 0), Eq8(block[1], 2));
    good := Eq8(block[0], 0) & Eq8(block[1], 2);
    var i := 2;
    while i < n - 1
      invariant 2 <= i <= n - 1 && IsMask(good)
      invariant good == 0xff <==> block[0] == 0 && block[1] == 2 && forall j | 2 <= j < i :: block[j] != 0
    {
      IsZero8Means(block[i]);
      NotMask(IsZero8(block[i]));
      AndMask(good, !IsZero8(block[i]));
      good := good & !IsZero8(block[i]);
      i := i + 1;
    }
    IsZero8Means(block[n - 1]);
    AndMask(good, IsZero8(block[n - 1]));
    good := good & IsZero8(block[n - 1]);
    var hi, lo := (version >> 8) as bv8, (version & 0xff) as bv8;
    Eq8Means(block[n], hi);
    AndMask(good, Eq8(block[n], hi));
    good := good & Eq8(block[n], hi);
    Eq8Means(block[n + 1], lo);
    AndMask(good, Eq8(block[n + 1], lo));
    good := good & Eq8(block[n + 1], lo);
  }
}
