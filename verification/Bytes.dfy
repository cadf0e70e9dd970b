/** Byte strings, big-endian integers and the builder/cursor pair that every
    encoder and decoder in the library is written with. */
module Bytes {

  type byte = b: nat | b < 256
  type bytes = seq<byte>

  datatype Option<+T> = None | Some(value: T)

  /** What a cursor read yields: failure, or the value and the unread bytes. */
  datatype Read<+T> = Fail | Ok(value: T, rest: bytes)

  /** The number of k-byte strings. */
  function Limit(k: nat): (l: nat)
    ensures l >= 1
  {
    if k == 0 then 1 else 256 * Limit(k - 1)
  }

  lemma Limits()
    ensures Limit(1) == 0x100 && Limit(2) == 0x1_0000 && Limit(3) == 0x100_0000
    ensures Limit(4) == 0x1_0000_0000 && Limit(6) == 0x1_0000_0000_0000
    ensures Limit(8) == 0x1_0000_0000_0000_0000
  {
    assert Limit(2) == 256 * Limit(1);
    assert Limit(4) == 256 * Limit(3);
    assert Limit(6) == 256 * (256 * Limit(4)) by { assert Limit(5) == 256 * Limit(4); }
    assert Limit(8) == 256 * (256 * Limit(6)) by { assert Limit(7) == 256 * Limit(6); }
  }

  /** The big-endian encoding of n in k bytes; higher digits are lost. */
  function Put(n: nat, k: nat): (s: bytes)
    ensures |s| == k
  {
    if k == 0 then [] else Put(n / 256, k - 1) + [n % 256]
  }

  /** The number a big-endian byte string denotes. */
  function Val(s: bytes): nat {
    if s == [] then 0 else 256 * Val(s[..|s| - 1]) + s[|s| - 1]
  }

  function GetUint(s: bytes, k: nat): Read<nat> {
    if |s| < k then Fail else Ok(Val(s[..k]), s[k..])
  }

  function GetBytes(s: bytes, n: nat): Read<bytes> {
    if |s| < n then Fail else Ok(s[..n], s[n..])
  }

  function PutPrefixed(body: bytes, k: nat): bytes {
    Put(|body|, k) + body
  }

  function GetPrefixed(s: bytes, k: nat): Read<bytes> {
    match GetUint(s, k)
    case Fail => Fail
    case Ok(n, rest) => GetBytes(rest, n)
  }

  lemma {:induction false} ValPut(n: nat, k: nat)
    requires n < Limit(k)
    ensures Val(Put(n, k)) == n
  {
    if k > 0 {
      ValPut(n / 256, k - 1);
      assert Put(n, k)[..k - 1] == Put(n / 256, k - 1);
    }
  }

  lemma {:induction false} PutVal(s: bytes)
    ensures Val(s) < Limit(|s|) && Put(Val(s), |s|) == s
  {
    if s != [] {
      PutVal(s[..|s| - 1]);
      assert s == s[..|s| - 1] + [s[|s| - 1]];
    }
  }

  // ---------- Digits ----------

  lemma PutOne(n: nat)
    ensures Put(n, 1) == [n % 0x100]
  {}

  lemma PutMore(n: nat, k: nat)
    ensures Put(n, k + 1) == Put(n / 0x100, k) + [n % 0x100]
  {}

  lemma TwoDigits(n: nat)
    ensures Put(n, 2) == [n / 0x100 % 0x100, n % 0x100]
    ensures n < 0x1_0000 ==> n / 0x100 % 0x100 == n / 0x100
  {
    PutMore(n, 1);
    PutOne(n / 0x100);
  }

  lemma ThreeDigits(n: nat)
    ensures Put(n, 3) == [n / 0x1_0000 % 0x100, n / 0x100 % 0x100, n % 0x100]
    ensures n < 0x100_0000 ==> n / 0x1_0000 % 0x100 == n / 0x1_0000
  {
    PutMore(n, 2);
    hide Put;
    assert n / 0x100 / 0x100 == n / 0x1_0000;
    TwoDigits(n / 0x100);
  }

  lemma FourDigits(n: nat)
    ensures Put(n, 4) == [n / 0x100_0000 % 0x100, n / 0x1_0000 % 0x100, n / 0x100 % 0x100, n % 0x100]
    ensures n < 0x1_0000_0000 ==> n / 0x100_0000 % 0x100 == n / 0x100_0000
  {
    PutMore(n, 3);
    hide Put;
    assert n / 0x100 / 0x100 == n / 0x1_0000;
    assert n / 0x100 / 0x1_0000 == n / 0x100_0000;
    ThreeDigits(n / 0x100);
  }

  lemma PutInjective(m: nat, n: nat, k: nat)
    requires m < Limit(k) && n < Limit(k) && Put(m, k) == Put(n, k)
    ensures m == n
  {
    ValPut(m, k);
    ValPut(n, k);
  }

  lemma GetPut(n: nat, k: nat, rest: bytes)
    requires n < Limit(k)
    ensures GetUint(Put(n, k) + rest, k) == Ok(n, rest)
  {
    ValPut(n, k);
    assert (Put(n, k) + rest)[..k] == Put(n, k);
    assert (Put(n, k) + rest)[k..] == rest;
  }

  lemma PutGet(s: bytes, k: nat)
    requires GetUint(s, k).Ok?
    ensures var r := GetUint(s, k); r.value < Limit(k) && s == Put(r.value, k) + r.rest
  {
    PutVal(s[..k]);
  }

  lemma GetBytesOf(body: bytes, rest: bytes)
    ensures GetBytes(body + rest, |body|) == Ok(body, rest)
  {
    assert (body + rest)[..|body|] == body;
    assert (body + rest)[|body|..] == rest;
  }

  lemma GetPutPrefixed(body: bytes, k: nat, rest: bytes)
    requires |body| < Limit(k)
    ensures GetPrefixed(PutPrefixed(body, k) + rest, k) == Ok(body, rest)
  {
    assert PutPrefixed(body, k) + rest == Put(|body|, k) + (body + rest);
    GetPut(|body|, k, body + rest);
    GetBytesOf(body, rest);
  }

  lemma PutGetPrefixed(s: bytes, k: nat)
    requires GetPrefixed(s, k).Ok?
    ensures var r := GetPrefixed(s, k); |r.value| < Limit(k) && s == PutPrefixed(r.value, k) + r.rest
  {
    PutGet(s, k);
    var r := GetUint(s, k);
    assert r.rest == r.rest[..r.value] + r.rest[r.value..];
  }

  function Flatten(ss: seq<bytes>): bytes {
    if ss == [] then [] else ss[0] + Flatten(ss[1..])
  }

  lemma {:induction false} FlattenAppend(ss: seq<bytes>, tt: seq<bytes>)
    ensures Flatten(ss + tt) == Flatten(ss) + Flatten(tt)
  {
    if ss == [] {
      assert ss + tt == tt;
    } else {
      assert (ss + tt)[1..] == ss[1..] + tt;
      FlattenAppend(ss[1..], tt);
    }
  }

  lemma FlattenSnoc(ss: seq<bytes>, t: bytes)
    ensures Flatten(ss + [t]) == Flatten(ss) + t
  {
    FlattenAppend(ss, [t]);
    assert Flatten([t]) == t;
  }
}
