/** Record sequence numbers and the nonces made from them. */
module Nonce {
  import opened Bits
  import opened Bytes

  // ---------- The sequence number ----------

  /** One more, big-endian, with the carry lost. */
  function Next(s: bytes): (r: bytes)
    ensures |r| == |s|
  {
    if s == [] then []
    else
      var n := |s| - 1;
      if s[n] < 255 then s[..n] + [s[n] + 1] else Next(s[..n]) + [0]
  }

  lemma {:induction false} NextVal(s: bytes)
    ensures Val(Next(s)) == if Val(s) + 1 < Limit(|s|) then Val(s) + 1 else 0
  {
    if s != [] {
      var n := |s| - 1;
      NextVal(s[..n]);
      PutVal(s[..n]);
      if s[n] < 255 {
        assert (s[..n] + [s[n] + 1])[..n] == s[..n];
      } else {
        assert (Next(s[..n]) + [0])[..n] == Next(s[..n]);
      }
    }
  }

  function Zeros(n: nat): (s: bytes)
    ensures |s| == n
  {
    seq(n, _ => 0)
  }

  /** ssl_record_sequence_update: adds one in place, and reports whether the
      number is still fresh. */
  method SequenceUpdate(a: array<byte>) returns (ok: bool)
    modifies a
    ensures a[..] == Next(old(a[..]))
    ensures ok <==> Val(old(a[..])) + 1 < Limit(a.Length)
    ensures Val(a[..]) == if ok then Val(old(a[..])) + 1 else 0
  {
    ghost var s := a[..];
    NextVal(s);
    NextZero(s);
    hide Next, Val, Limit;
    var i := a.Length;
    while i > 0
      invariant 0 <= i <= a.Length
      invariant forall j | 0 <= j < i :: a[j] == s[j]
      invariant forall j | i <= j < a.Length :: s[j] == 255 && a[j] == 0
    {
      i := i - 1;
      a[i] := if a[i] == 255 then 0 else a[i] + 1;
      if a[i] != 0 {
        NextPoints(s, i);
        assert Next(s)[i] != Zeros(a.Length)[i];
        return true;
      }
    }
    NextFull(s);
    assert a[..] == Zeros(a.Length);
    return false;
  }

  /** The carry passes the full bytes at the end and stops at the one before. */
  lemma {:induction false} NextAt(s: bytes, i: nat)
    requires i < |s| && s[i] < 255 && forall j | i < j < |s| :: s[j] == 255
    ensures Next(s) == s[..i] + [s[i] + 1] + Zeros(|s| - i - 1)
  {
    var n := |s| - 1;
    if i < n {
      NextAt(s[..n], i);
      assert s[..n][..i] == s[..i];
    }
  }

  lemma NextPoints(s: bytes, i: nat)
    requires i < |s| && s[i] < 255 && forall j | i < j < |s| :: s[j] == 255
    ensures forall j | 0 <= j < |s| :: Next(s)[j] == if j < i then s[j] else if j == i then s[i] + 1 else 0
  {
    NextAt(s, i);
  }

  lemma {:induction false} NextFull(s: bytes)
    requires forall j | 0 <= j < |s| :: s[j] == 255
    ensures Next(s) == Zeros(|s|)
  {
    if s != [] { NextFull(s[..|s| - 1]); }
  }

  /** The next number is all zeros exactly when there is none. */
  lemma NextZero(s: bytes)
    ensures (Next(s) == Zeros(|s|)) <==> Val(s) + 1 >= Limit(|s|)
  {
    NextVal(s);
    ValZeros(|s|);
    if Next(s) != Zeros(|s|) && Val(Next(s)) == 0 {
      PutVal(Next(s));
      PutVal(Zeros(|s|));
    }
  }

  lemma {:induction false} ValZeros(n: nat)
    ensures Val(Zeros(n)) == 0
  {
    if n > 0 {
      assert Zeros(n)[..n - 1] == Zeros(n - 1);
      ValZeros(n - 1);
    }
  }

  // ---------- Nonces ----------

  /** The fixed part of the nonce, whether it is XORed in or put in front, and
      whether the rest travels with the record. */
  datatype Construction = Construction(fixed: bytes, xor: bool, included: bool)

  const SEQ_LEN := 8

  /** The sequence number is eight bytes, and an IV to be XORed covers it. */
  predicate ConstructionOk(c: Construction) {
    (c.xor ==> |c.fixed| >= SEQ_LEN) && (c.included ==> !c.xor)
  }

  function XorBytes(a: bytes, b: bytes): (r: bytes)
    requires |a| == |b|
    ensures |r| == |a|
  {
    seq(|a|, i requires 0 <= i < |a| => XorByte(a[i], b[i]))
  }

  function XorByte(a: byte, b: byte): byte {
    Pow2Of8();
    XorBound(a, b, 8);
    Xor(a, b)
  }

  function NonceOf(c: Construction, s: bytes): bytes
    requires ConstructionOk(c) && |s| == SEQ_LEN
  {
    if c.xor then XorBytes(Zeros(|c.fixed| - SEQ_LEN) + s, c.fixed) else c.fixed + s
  }

  /** Byte by byte.  XORed in, the sequence number is under the last eight bytes
      of the fixed part, bit by bit, and the bytes before are the fixed ones; put
      behind, it follows the fixed part as it is. */
  lemma NonceAt(c: Construction, s: bytes, i: nat)
    requires c.xor ==> |c.fixed| >= 8
    requires c.included ==> !c.xor
    requires |s| == 8
    ensures var nonce := NonceOf(c, s);
            var n := |c.fixed|;
            && |nonce| == (if c.xor then n else n + 8)
            && (!c.xor ==> (i < n ==> nonce[i] == c.fixed[i]) && (n <= i < n + 8 ==> nonce[i] == s[i - n]))
            && (c.xor ==>
                  && (i < n - 8 ==> nonce[i] == c.fixed[i])
                  && (n - 8 <= i < n ==> forall k: nat :: Bit(nonce[i], k) == (Bit(s[i - (n - 8)], k) != Bit(c.fixed[i], k))))
  {
    var n := |c.fixed|;
    if c.xor && n - 8 <= i < n {
      forall k: nat ensures Bit(NonceOf(c, s)[i], k) == (Bit(s[i - (n - 8)], k) != Bit(c.fixed[i], k)) {
        BitXor(s[i - (n - 8)], c.fixed[i], k);
      }
    } else if c.xor && i < n - 8 {
      XorNothing(c.fixed[i]);
    }
  }

  lemma {:induction false} XorNothing(b: nat)
    ensures Xor(0, b) == b
  {
    if b > 0 { XorNothing(b / 2); }
  }

  /** Different sequence numbers make different nonces. */
  lemma NonceInjective(c: Construction, s: bytes, t: bytes)
    requires ConstructionOk(c) && |s| == SEQ_LEN && |t| == SEQ_LEN && NonceOf(c, s) == NonceOf(c, t)
    ensures s == t
  {
    if c.xor {
      var n := |c.fixed| - SEQ_LEN;
      forall i | 0 <= i < SEQ_LEN ensures s[i] == t[i] {
        assert (Zeros(n) + s)[n + i] == s[i] && (Zeros(n) + t)[n + i] == t[i];
        assert NonceOf(c, s)[n + i] == XorByte(s[i], c.fixed[n + i]);
        assert NonceOf(c, t)[n + i] == XorByte(t[i], c.fixed[n + i]);
        XorInjective(s[i], t[i], c.fixed[n + i]);
      }
    } else {
      assert NonceOf(c, s)[|c.fixed|..] == s && NonceOf(c, t)[|c.fixed|..] == t;
    }
  }

  lemma NumberNonceInjective(c: Construction, m: nat, n: nat)
    requires ConstructionOk(c) && m < Limit(SEQ_LEN) && n < Limit(SEQ_LEN)
    requires NonceOf(c, Put(m, SEQ_LEN)) == NonceOf(c, Put(n, SEQ_LEN))
    ensures m == n
  {
    NonceInjective(c, Put(m, SEQ_LEN), Put(n, SEQ_LEN));
    PutInjective(m, n, SEQ_LEN);
  }

  /** The nonce as SealScatter and Open assemble it, around the eight bytes that
      vary. */
  method Assemble(c: Construction, variable: bytes) returns (nonce: array<byte>)
    requires ConstructionOk(c) && |variable| == SEQ_LEN
    ensures nonce[..] == NonceOf(c, variable)
  {
    var start := if c.xor then |c.fixed| - SEQ_LEN else |c.fixed|;
    nonce := new byte[start + SEQ_LEN];
    forall i | 0 <= i < start { nonce[i] := if c.xor then 0 else c.fixed[i]; }
    forall i | 0 <= i < SEQ_LEN { nonce[start + i] := variable[i]; }
    assert nonce[..] == (if c.xor then Zeros(start) else c.fixed) + variable;
    if c.xor {
      ghost var plain := nonce[..];
      var i := 0;
      while i < |c.fixed|
        invariant 0 <= i <= |c.fixed| == nonce.Length
        invariant forall j | 0 <= j < i :: nonce[j] == XorByte(plain[j], c.fixed[j])
        invariant forall j | i <= j < nonce.Length :: nonce[j] == plain[j]
      {
        nonce[i] := XorByte(nonce[i], c.fixed[i]);
        i := i + 1;
      }
    }
  }

  /** Sealing: the nonce for a sequence number and what of it goes in front of the
      ciphertext. */
  method SealNonce(c: Construction, s: bytes) returns (nonce: array<byte>, prefix: bytes)
    requires ConstructionOk(c) && |s| == SEQ_LEN
    ensures nonce[..] == NonceOf(c, s)
    ensures prefix == if c.included then s else []
  {
    nonce := Assemble(c, s);
    prefix := if c.included then nonce[|c.fixed|..] else [];
  }

  /** Opening: the nonce and the ciphertext proper; None for a record too short
      to hold the nonce. */
  method OpenNonce(c: Construction, s: bytes, record: bytes) returns (r: Option<(bytes, bytes)>)
    requires ConstructionOk(c) && |s| == SEQ_LEN
    ensures r.None? <==> c.included && |record| < SEQ_LEN
    ensures !c.included ==> r == Some((NonceOf(c, s), record))
    ensures forall t: bytes, body: bytes | c.included && |t| == SEQ_LEN && record == t + body ::
              r == Some((NonceOf(c, t), body))
  {
    var variable, rest := s, record;
    if c.included {
      if |record| < SEQ_LEN {
        return None;
      }
      variable, rest := record[..SEQ_LEN], record[SEQ_LEN..];
    }
    var nonce := Assemble(c, variable);
    return Some((nonce[..], rest));
  }

  /** The receiver assembles the nonce the sender used, if it has the same number
      or the record brings it along. */
  method RoundTrip(c: Construction, s: bytes, here: bytes, ciphertext: bytes) returns (sealing: bytes, opening: Option<(bytes, bytes)>)
    requires ConstructionOk(c) && |s| == SEQ_LEN && |here| == SEQ_LEN && (c.included || here == s)
    ensures opening == Some((sealing, ciphertext))
  {
    var nonce, prefix := SealNonce(c, s);
    sealing := nonce[..];
    opening := OpenNonce(c, here, prefix + ciphertext);
    assert !c.included ==> prefix + ciphertext == ciphertext;
  }
}
