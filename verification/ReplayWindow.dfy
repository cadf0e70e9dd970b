/** The DTLS anti-replay window: a 64-bit bitmap and the highest number seen,
    shown to answer exactly the questions a set of all recorded numbers would
    (section 4.1.2.6 of RFC 6347). */
module ReplayWindow {
  import opened Bits

  const WINDOW := 64
  const SEQ_LIMIT := 0x1_0000_0000_0000_0000

  /** The set-based meaning of the discard test: seen before, or at least a full
      window older than some recorded number. */
  ghost predicate Stale(recorded: set<nat>, seqNum: nat) {
    seqNum in recorded || exists r :: r in recorded && seqNum + WINDOW <= r
  }

  /** Bit i of the bitmap stands for number top - i. */
  ghost predicate Shows(bits: nat, top: nat, recorded: set<nat>) {
    forall i {:trigger Bit(bits, i)} | 0 <= i < WINDOW ::
      Bit(bits, i) == (i <= top && top - i in recorded)
  }

  /** Sliding the window up to a new maximum. */
  function Slid(bits: nat, shift: nat): nat {
    if shift >= WINDOW then 0 else Shl(bits, shift, 64)
  }

  lemma SlideShows(bits: nat, top: nat, recorded: set<nat>, top': nat)
    requires Shows(bits, top, recorded) && top < top'
    requires forall r | r in recorded :: r <= top
    ensures Shows(Slid(bits, top' - top), top', recorded) && Slid(bits, top' - top) < Pow2(64)
  {
    var shift := top' - top;
    forall i | 0 <= i < WINDOW
      ensures Bit(Slid(bits, shift), i) == (i <= top' && top' - i in recorded)
    {
      if shift >= WINDOW {
        BitZero(i);
      } else {
        BitShl(bits, shift, 64, i);
        if shift <= i { assert Bit(bits, i - shift) == (i - shift <= top && top - (i - shift) in recorded); }
      }
    }
  }

  lemma SetShows(bits: nat, top: nat, recorded: set<nat>, seqNum: nat)
    requires Shows(bits, top, recorded) && seqNum <= top && bits < Pow2(64)
    ensures var idx := top - seqNum;
            var bits' := if idx < WINDOW then Or(bits, Shl(1, idx, 64)) else bits;
            bits' < Pow2(64) && Shows(bits', top, recorded + {seqNum})
  {
    if top - seqNum < WINDOW { OrShl(bits, top - seqNum); }
  }

  lemma MaskTest(m: nat, i: nat)
    requires m < Pow2(64) && i < 64
    ensures (And(m, Shl(1, i, 64)) != 0) == Bit(m, i)
  {
    var one := Shl(1, i, 64);
    forall j: nat ensures Bit(one, j) == (j == i) {
      BitShl(1, i, 64, j);
      if i <= j { BitPow2(0, j - i); }
    }
    AndBound(m, one, 64);
    BitAnd(m, one, i);
    BitZero(i);
    if And(m, one) != 0 && !Bit(m, i) {
      forall j | 0 <= j < 64 ensures Bit(And(m, one), j) == Bit(0, j) {
        BitAnd(m, one, j);
        BitZero(j);
      }
      SameBits(And(m, one), 0, 64);
    }
  }

  class Window {
    var bits: nat
    var maxSeq: nat
    ghost var recorded: set<nat>

    ghost predicate Valid()
      reads this
    {
      && bits < Pow2(64)
      && maxSeq < SEQ_LIMIT
      && (recorded == {} ==> maxSeq == 0)
      && (recorded != {} ==> maxSeq in recorded)
      && (forall r | r in recorded :: r <= maxSeq)
      && Shows(bits, maxSeq, recorded)
    }

    constructor ()
      ensures Valid() && recorded == {}
    {
      bits, maxSeq, recorded := 0, 0, {};
      new;
      forall i | 0 <= i < WINDOW ensures !Bit(bits, i) { BitZero(i); }
    }

    /** Forgets everything: a new epoch begins. */
    method Reset()
      modifies this
      ensures Valid() && recorded == {}
    {
      bits, maxSeq, recorded := 0, 0, {};
      forall i | 0 <= i < WINDOW ensures !Bit(bits, i) { BitZero(i); }
    }

    method ShouldDiscard(seqNum: nat) returns (discard: bool)
      requires Valid() && seqNum < SEQ_LIMIT
      ensures discard == Stale(recorded, seqNum)
    {
      if seqNum > maxSeq {
        return false;
      }
      var idx := maxSeq - seqNum;
      if idx < WINDOW {
        MaskTest(bits, idx);
        assert Bit(bits, idx) == (maxSeq - idx in recorded);
      } else {
        assert recorded != {};
      }
      return idx >= WINDOW || And(bits, Shl(1, idx, 64)) != 0;
    }

    /** Adds one number, sliding the window forward when it is a new maximum.
        Recording a number older than the window leaves the bitmap alone. */
    method Record(seqNum: nat)
      requires Valid() && seqNum < SEQ_LIMIT
      modifies this
      ensures Valid() && recorded == old(recorded) + {seqNum}
    {
      hide Or, Shl, Shows;
      if seqNum > maxSeq {
        SlideShows(bits, maxSeq, recorded, seqNum);
        var shift := seqNum - maxSeq;
        if shift >= WINDOW {
          bits := 0;
        } else {
          bits := Shl(bits, shift, 64);
        }
        maxSeq := seqNum;
      }
      SetShows(bits, maxSeq, recorded, seqNum);
      var idx := maxSeq - seqNum;
      if idx < WINDOW {
        bits := Or(bits, Shl(1, idx, 64));
      }
      recorded := recorded + {seqNum};
    }
  }

  lemma OrShl(m: nat, k: nat)
    requires m < Pow2(64) && k < 64
    ensures var r := Or(m, Shl(1, k, 64));
            r < Pow2(64) && forall i {:trigger Bit(r, i)} | 0 <= i < 64 :: Bit(r, i) == (Bit(m, i) || i == k)
  {
    var one := Shl(1, k, 64);
    OrBound(m, one, 64);
    forall i | 0 <= i < 64 ensures Bit(Or(m, one), i) == (Bit(m, i) || i == k) {
      BitOr(m, one, i);
      BitShl(1, k, 64, i);
      if k <= i { BitPow2(0, i - k); }
    }
  }
}
