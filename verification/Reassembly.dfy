/** One incoming DTLS handshake message and the bitmask of the body bytes that
    have arrived (section 4.2.3 of RFC 6347). */
module Reassembly {
  import opened Bits
  import opened Bytes

  const HM_HEADER_LENGTH := 12

  /** A byte with bits start (inclusive) to end (exclusive) set, computed on
      wider words of width w and truncated. */
  function RangeOfWidth(start: nat, end: nat, w: nat): (m: nat)
    requires start <= 8 < w && end <= 8
    ensures m < 256
  {
    ShlOne(start, w);
    ShlOne(end, w);
    Pow2Of8();
    Low(And(Not(Shl(1, start, w) - 1, w), Shl(1, end, w) - 1), 8)
  }

  /** The computation is done on unsigned, a 32-bit type. */
  function BitRange(start: nat, end: nat): (m: nat)
    requires start <= 8 && end <= 8
    ensures m < 256
  {
    RangeOfWidth(start, end, 32)
  }

  lemma RangeBits(start: nat, end: nat, w: nat, i: nat)
    requires start <= 8 < w && end <= 8 && i < 8
    ensures Bit(RangeOfWidth(start, end, w), i) == (start <= i < end)
  {
    ShlOne(start, w);
    ShlOne(end, w);
    var lo, hi := Pow2(start) - 1, Pow2(end) - 1;
    BitLow(And(Not(lo, w), hi), 8, i);
    BitAnd(Not(lo, w), hi, i);
    BitNot(lo, w, i);
    BitMask(start, i);
    BitMask(end, i);
  }

  lemma BitRangeBits(start: nat, end: nat, i: nat)
    requires start <= 8 && end <= 8 && i < 8
    ensures Bit(BitRange(start, end), i) == (start <= i < end)
  {
    RangeBits(start, end, 32, i);
  }

  /** The byte of a range, known to its callers by its bits alone. */
  method RangeByte(start: nat, end: nat) returns (m: byte)
    requires start <= 8 && end <= 8
    ensures forall b {:trigger Bit(m, b)} | 0 <= b < 8 :: Bit(m, b) == (start <= b < end)
  {
    m := BitRange(start, end);
    forall b | 0 <= b < 8 ensures Bit(m, b) == (start <= b < end) { BitRangeBits(start, end, b); }
  }

  lemma OrByte(m: byte, n: byte)
    ensures var r := Or(m, n);
            r < 256 && forall b {:trigger Bit(r, b)} | 0 <= b < 8 :: Bit(r, b) == (Bit(m, b) || Bit(n, b))
  {
    Pow2Of8();
    OrBound(m, n, 8);
    forall b | 0 <= b < 8 ensures Bit(Or(m, n), b) == (Bit(m, b) || Bit(n, b)) { BitOr(m, n, b); }
  }

  predicate BitsBelow(m: nat, n: nat) {
    forall b {:trigger Bit(m, b)} | 0 <= b < n :: Bit(m, b)
  }

  /** A byte whose bits from n on are clear equals the byte of the range [0, n)
      exactly when all its bits below n are set. */
  lemma IsRange(m: byte, r: byte, n: nat)
    requires n <= 8
    requires forall b {:trigger Bit(r, b)} | 0 <= b < 8 :: Bit(r, b) == (b < n)
    requires forall b {:trigger Bit(m, b)} | n <= b < 8 :: !Bit(m, b)
    ensures m == r <==> BitsBelow(m, n)
  {
    if BitsBelow(m, n) {
      Pow2Of8();
      SameBits(m, r, 8);
    }
  }

  lemma BitsOfFF()
    ensures forall b {:trigger Bit(0xff, b)} | 0 <= b < 8 :: Bit(0xff, b)
  {
    Pow2Of8();
    forall b | 0 <= b < 8 ensures Bit(0xff, b) { BitMask(8, b); }
  }

  /** The header every message is filed under: a single fragment that covers the
      whole body. */
  function WholeHeader(typ: byte, seqNum: nat, len: nat): (h: bytes)
    ensures |h| == HM_HEADER_LENGTH
  {
    [typ] + Put(len, 3) + Put(seqNum, 2) + Put(0, 3) + Put(len, 3)
  }

  /** What is known of a message: each body byte, once it has arrived, and the
      read generations of the records that contributed. */
  datatype Partial = Partial(typ: byte, seqNum: nat, body: seq<Option<byte>>, gens: set<nat>)

  /** A message of which only the length is known. */
  function Nothing(typ: byte, seqNum: nat, len: nat, gen: nat): Partial {
    Partial(typ, seqNum, seq(len, _ => None), {gen})
  }

  /** The body offsets start (inclusive) to end (exclusive). */
  ghost function Span(start: nat, end: nat): set<nat> {
    set i {:trigger Offset(i)} | start <= i < end && Offset(i)
  }

  predicate Offset(i: nat) { true }

  predicate Complete(p: Partial) {
    forall i | 0 <= i < |p.body| :: p.body[i].Some?
  }

  /** A complete message as its handshake bytes: header and body. */
  function Raw(p: Partial): bytes
    requires Complete(p)
  {
    WholeHeader(p.typ, p.seqNum, |p.body|) + seq(|p.body|, i requires 0 <= i < |p.body| => p.body[i].value)
  }

  class HmFragment {
    const typ: byte
    const seqNum: nat
    const msgLen: nat
    const data: array<byte>
    var reassembly: array?<byte>
    ghost const mask: array?<byte>
    ghost var covered: set<nat>
    ghost var gens: set<nat>

    ghost function Footprint(): set<object?> {
      {this, data} + if mask == null then {} else {mask}
    }

    ghost predicate Valid()
      reads Footprint()
    {
      && data.Length == HM_HEADER_LENGTH + msgLen
      && data[..HM_HEADER_LENGTH] == WholeHeader(typ, seqNum, msgLen)
      && data != mask
      && (forall i | i in covered :: 0 <= i < msgLen)
      && (reassembly == null <==> forall i | 0 <= i < msgLen :: i in covered)
      && (reassembly != null ==>
            && reassembly == mask
            && reassembly.Length == (msgLen + 7) / 8
            && MaskShows(reassembly[..], covered))
    }

    ghost function View(): Partial
      reads this, data
      requires data.Length == HM_HEADER_LENGTH + msgLen
    {
      Partial(typ, seqNum,
              seq(msgLen, i requires 0 <= i < msgLen reads this, data =>
                    if i in covered && data.Length == HM_HEADER_LENGTH + msgLen
                    then Some(data[HM_HEADER_LENGTH + i]) else None),
              gens)
    }

    constructor (typ: byte, seqNum: nat, msgLen: nat, ghost gen: nat)
      ensures Valid() && fresh(Footprint())
      ensures this.typ == typ && this.seqNum == seqNum && this.msgLen == msgLen
      ensures View() == Nothing(typ, seqNum, msgLen, gen)
    {
      this.typ, this.seqNum, this.msgLen := typ, seqNum, msgLen;
      var buf := new byte[HM_HEADER_LENGTH + msgLen];
      var header := WholeHeader(typ, seqNum, msgLen);
      forall i | 0 <= i < HM_HEADER_LENGTH { buf[i] := header[i]; }
      data := buf;
      var bits: array?<byte> := null;
      if msgLen > 0 {
        bits := new byte[(msgLen + 7) / 8](_ => 0);
      }
      reassembly, mask := bits, bits;
      covered, gens := {}, {gen};
      new;
      assert data[..HM_HEADER_LENGTH] == header;
      forall b: nat ensures !Bit(0, b) { BitZero(b); }
      if msgLen > 0 { assert 0 !in covered; }
      assert View().body == Nothing(typ, seqNum, msgLen, gen).body;
    }

    /** The bitmask is gone exactly when every byte is there. */
    lemma KnowsComplete()
      requires Valid()
      ensures reassembly == null <==> Complete(View())
    {
      assert forall i | 0 <= i < msgLen :: View().body[i].Some? <==> i in covered;
      if Complete(View()) {
        forall i | 0 <= i < msgLen ensures i in covered { assert View().body[i].Some?; }
      }
    }

    lemma KnowsRaw()
      requires Valid() && reassembly == null
      ensures Complete(View()) && data[..] == Raw(View())
    {
      KnowsComplete();
      assert data[..] == data[..HM_HEADER_LENGTH] + data[HM_HEADER_LENGTH..];
      assert data[HM_HEADER_LENGTH..] == Raw(View())[HM_HEADER_LENGTH..];
    }

    /** Marks body bytes start to end as received and drops the bitmask once
        every byte has been. */
    method Mark(start: nat, end: nat)
      requires Valid() && reassembly != null && start <= end <= msgLen
      modifies this`reassembly, this`covered, reassembly
      ensures Valid()
      ensures covered == old(covered) + Span(start, end)
    {
      if start == end {
        return;
      }
      ghost var before := reassembly[..];
      SetRange(reassembly, start, end, msgLen);
      covered := covered + Span(start, end);
      assert MaskShows(reassembly[..], covered) by {
        assert MaskShows(before, old(covered));
        forall j, b | 0 <= j < reassembly.Length && 0 <= b < 8
          ensures Bit(reassembly[..][j], b) == (8 * j + b in covered)
        {
          assert Bit(before[j], b) == (8 * j + b in old(covered));
        }
      }
      var done := AllSet(reassembly, msgLen, covered);
      if done {
        reassembly := null;
      }
    }

    /** Copies a fragment's bytes into place and marks them. */
    method Receive(off: nat, body: bytes, ghost gen: nat)
      requires Valid() && reassembly != null && off + |body| <= msgLen
      modifies Footprint()
      ensures Valid()
      ensures View() == Merge(old(View()), off, body, gen)
    {
      hide MaskShows, WholeHeader;
      ghost var v := View();
      forall i | 0 <= i < |body| { data[HM_HEADER_LENGTH + off + i] := body[i]; }
      assert data[..HM_HEADER_LENGTH] == old(data[..HM_HEADER_LENGTH]);
      assert reassembly[..] == old(reassembly[..]);
      Mark(off, off + |body|);
      gens := gens + {gen};
      assert View().body == Merge(v, off, body, gen).body;
    }
  }

  /** Bit b of byte j stands for body byte 8j+b. */
  ghost predicate MaskShows(m: seq<byte>, covered: set<nat>) {
    forall j, b {:trigger Bit(m[j], b)} | 0 <= j < |m| && 0 <= b < 8 ::
      Bit(m[j], b) == (8 * j + b in covered)
  }

  /** The effect of one fragment on what is known of a message. */
  function Merge(p: Partial, off: nat, body: bytes, gen: nat): Partial
    requires off + |body| <= |p.body|
  {
    p.(body := seq(|p.body|, i requires 0 <= i < |p.body| =>
                     if off <= i < off + |body| then Some(body[i - off]) else p.body[i]),
       gens := p.gens + {gen})
  }

  method SetRange(r: array<byte>, start: nat, end: nat, ghost msgLen: nat)
    requires r.Length == (msgLen + 7) / 8 && start < end <= msgLen
    modifies r
    ensures forall j, b {:trigger Bit(r[j], b)} | 0 <= j < r.Length && 0 <= b < 8 ::
              Bit(r[j], b) == (Bit(old(r[j]), b) || start <= 8 * j + b < end)
  {
    var first, last := start / 8, end / 8;
    if first == last {
      var m := RangeByte(start % 8, end % 8);
      OrByte(r[first], m);
      r[first] := Or(r[first], m);
    } else {
      var m := RangeByte(start % 8, 8);
      OrByte(r[first], m);
      r[first] := Or(r[first], m);
      BitsOfFF();
      var i := first + 1;
      while i < last
        invariant first < i <= last
        invariant forall j, b {:trigger Bit(r[j], b)} | 0 <= j < i && 0 <= b < 8 ::
            Bit(r[j], b) == (Bit(old(r[j]), b) || start <= 8 * j + b < end)
        invariant forall j | i <= j < r.Length :: r[j] == old(r[j])
      {
        r[i] := 0xff;
        i := i + 1;
      }
      if end % 8 != 0 {
        m := RangeByte(0, end % 8);
        OrByte(r[last], m);
        r[last] := Or(r[last], m);
      }
    }
  }

  /** The completeness test: whole bytes against 0xff, then the ragged tail. */
  method AllSet(r: array<byte>, msgLen: nat, ghost covered: set<nat>) returns (done: bool)
    requires r.Length == (msgLen + 7) / 8 && MaskShows(r[..], covered)
    requires forall i | i in covered :: 0 <= i < msgLen
    ensures done <==> forall i | 0 <= i < msgLen :: i in covered
  {
    BitsOfFF();
    var i := 0;
    while i < msgLen / 8
      invariant 0 <= i <= msgLen / 8
      invariant forall k | 0 <= k < 8 * i :: k in covered
    {
      IsRange(r[i], 0xff, 8);
      ByteShows(r[..], covered, i);
      if r[i] != 0xff {
        return false;
      }
      i := i + 1;
    }
    if msgLen % 8 != 0 {
      var m := RangeByte(0, msgLen % 8);
      ByteShows(r[..], covered, i);
      assert forall b {:trigger Bit(r[i], b)} | msgLen % 8 <= b < 8 :: 8 * i + b !in covered;
      IsRange(r[i], m, msgLen % 8);
      if r[i] != m {
        return false;
      }
    }
    return true;
  }

  lemma ByteShows(m: seq<byte>, covered: set<nat>, j: nat)
    requires MaskShows(m, covered) && j < |m|
    ensures forall b {:trigger Bit(m[j], b)} | 0 <= b < 8 :: Bit(m[j], b) == (8 * j + b in covered)
    ensures forall k {:trigger k in covered} | 8 * j <= k < 8 * j + 8 :: (k in covered) == Bit(m[j], k - 8 * j)
  {
    forall k | 8 * j <= k < 8 * j + 8 ensures (k in covered) == Bit(m[j], k - 8 * j) {
      assert Bit(m[j], k - 8 * j) == (8 * j + (k - 8 * j) in covered);
    }
  }
}
