/** SSLBuffer: a growable byte buffer filled at the back and consumed at the
    front, with 16-bit bookkeeping. */
module TlsBuffer {
  import opened Bytes

  const INLINE := 5
  const ALIGN := 8
  const U16 := 0x1_0000

  /** Where buf_ points: nowhere, at inline_buf_, or at allocated memory. */
  datatype Place = Nowhere | Inline | Heap(mem: bytes)

  datatype Buf = Buf(at: Place, inline: bytes, offset: nat, size: nat, cap: nat)

  /** What the allocator hands out: the address of the block and what it happens
      to hold. */
  datatype Alloc = Alloc(addr: nat, junk: bytes)

  /** Memory from malloc is aligned for any type. */
  predicate Aligned(a: Alloc) { a.addr % ALIGN == 0 }

  /** Where the contents begin in a new block, for the record body behind the
      first headerLen bytes to be aligned. */
  function AlignedOffset(headerLen: nat, a: Alloc): (off: nat)
    ensures off < ALIGN && (a.addr + off + headerLen) % ALIGN == 0
  {
    -(headerLen + a.addr) % ALIGN
  }

  function Mem(b: Buf): bytes {
    match b.at
    case Nowhere => []
    case Inline => b.inline
    case Heap(mem) => mem
  }

  predicate BufOk(b: Buf) {
    && |b.inline| == INLINE
    && b.size <= b.cap < U16 && b.offset < U16
    && b.offset + b.cap <= |Mem(b)|
  }

  function Contents(b: Buf): bytes
    requires BufOk(b)
  {
    Mem(b)[b.offset..b.offset + b.size]
  }

  function Cleared(b: Buf): Buf {
    b.(at := Nowhere, offset := 0, size := 0, cap := 0)
  }

  function Filled(junk: bytes, n: nat): (s: bytes)
    ensures |s| == n
  {
    seq(n, i => if 0 <= i < |junk| then junk[i] else 0)
  }

  /** mem with data written at off. */
  function Written(mem: bytes, off: nat, data: bytes): (m: bytes)
    requires off + |data| <= |mem|
    ensures |m| == |mem|
  {
    mem[..off] + data + mem[off + |data|..]
  }

  function Grown(b: Buf, headerLen: nat, newCap: nat, a: Alloc): (r: (Buf, bool))
    requires BufOk(b)
    ensures BufOk(r.0)
  {
    if newCap >= U16 then (b, false)
    else if b.cap >= newCap then (b, true)
    else if newCap <= INLINE then
      (Buf(Inline, Written(b.inline, 0, Contents(b)), 0, b.size, newCap), true)
    else
      var off := AlignedOffset(headerLen, a);
      (Buf(Heap(Written(Filled(a.junk, newCap + ALIGN - 1), off, Contents(b))), b.inline, off, b.size, newCap), true)
  }

  function Appended(b: Buf, data: bytes): (r: Buf)
    requires BufOk(b) && |data| <= b.cap - b.size
    ensures BufOk(r)
  {
    var mem := Written(Mem(b), b.offset + b.size, data);
    match b.at
    case Nowhere => b
    case Inline => b.(inline := mem, size := b.size + |data|)
    case Heap(_) => b.(at := Heap(mem), size := b.size + |data|)
  }

  /** The offset is a 16-bit sum. */
  function Consumed(b: Buf, n: nat): (r: Buf)
    requires BufOk(b) && n <= b.size
    ensures BufOk(r)
  {
    b.(offset := (b.offset + n) % U16, size := b.size - n, cap := b.cap - n)
  }

  // ---------- What the operations mean ----------

  lemma WrittenAt(mem: bytes, off: nat, data: bytes, lo: nat)
    requires lo <= off && off + |data| <= |mem|
    ensures Written(mem, off, data)[lo..off + |data|] == mem[lo..off] + data
  {}

  /** Growing moves the bytes, however they overlap, and keeps them. */
  lemma GrownKeeps(b: Buf, headerLen: nat, newCap: nat, a: Alloc)
    requires BufOk(b)
    ensures var (b', ok) := Grown(b, headerLen, newCap, a);
            && Contents(b') == Contents(b) && b'.size == b.size
            && (ok <==> newCap < U16) && (ok ==> b'.cap >= newCap) && (!ok ==> b' == b)
  {
    if newCap < U16 && b.cap < newCap {
      if newCap <= INLINE {
        WrittenAt(b.inline, 0, Contents(b), 0);
      } else {
        var off := AlignedOffset(headerLen, a);
        WrittenAt(Filled(a.junk, newCap + ALIGN - 1), off, Contents(b), off);
      }
    }
  }

  /** A buffer that is large enough is left as it is.  Up to five bytes are kept in
      the buffer itself; more go to new memory, at the offset that aligns what
      follows the header. */
  lemma GrownExact(b: Buf, headerLen: nat, newCap: nat, a: Alloc)
    requires BufOk(b) && newCap < 0x1_0000
    ensures var b' := Grown(b, headerLen, newCap, a).0;
            && (newCap <= b.cap ==> b' == b)
            && (b.cap < newCap ==> b'.cap == newCap && b'.size == b.size)
            && (b.cap < newCap <= 5 ==> b'.at.Inline? && b'.offset == 0)
            && (b.cap < newCap && newCap > 5 ==>
                  && b'.at.Heap? && b'.inline == b.inline && |b'.at.mem| == newCap + 7
                  && b'.offset < 8 && (a.addr + b'.offset + headerLen) % 8 == 0)
  {
    hide Written, Filled, Contents;
  }

  lemma AppendedAdds(b: Buf, data: bytes)
    requires BufOk(b) && |data| <= b.cap - b.size
    ensures Contents(Appended(b, data)) == Contents(b) + data
    ensures Appended(b, data).offset == b.offset && Appended(b, data).cap == b.cap
  {
    if b.at.Nowhere? {
      assert data == [];
    } else {
      WrittenAt(Mem(b), b.offset + b.size, data, b.offset);
    }
  }

  lemma ConsumedDrops(b: Buf, n: nat)
    requires BufOk(b) && n <= b.size && (b.offset + n < U16 || n == b.size)
    ensures Contents(Consumed(b, n)) == Contents(b)[n..]
  {
    var (mem, lo, hi) := (Mem(b), b.offset + n, b.offset + b.size);
    assert Mem(Consumed(b, n)) == mem;
    hide Mem;
    if n < b.size {
      assert lo % U16 == lo;
      assert mem[b.offset..hi][n..] == mem[lo..hi];
    }
  }

  /** Neither reading nor growing carries the offset past 16 bits while bytes are
      left, when the buffer was not asked to be within 6 bytes of its limit. */
  predicate Roomy(b: Buf) { b.offset + b.cap <= U16 }

  lemma RoomyKept(b: Buf, headerLen: nat, newCap: nat, a: Alloc, n: nat)
    requires BufOk(b) && Roomy(b)
    ensures n <= b.size ==> Roomy(Consumed(b, n))
    ensures newCap + ALIGN - 1 <= U16 ==> Roomy(Grown(b, headerLen, newCap, a).0)
  {}

  lemma EmptyContents(b: Buf)
    requires BufOk(b) && b.size == 0
    ensures Contents(b) == []
  {}

  /** Two states of the memory a buffer lives in. */
  function WithMem(b: Buf, mem: bytes): Buf {
    b.(at := Heap(mem))
  }

  /** Consuming yields the rest of the contents, whatever the memory holds, if
      and only if the 16-bit offset does not wrap or nothing is left. */
  lemma ConsumeExact(b: Buf, n: nat)
    requires BufOk(b) && b.at.Heap? && n <= b.size
    ensures (forall mem: bytes | |mem| == |Mem(b)| ::
               Contents(Consumed(WithMem(b, mem), n)) == Contents(WithMem(b, mem))[n..])
            <==> (b.offset + n < U16 || n == b.size)
  {
    if b.offset + n < U16 || n == b.size {
      forall mem: bytes | |mem| == |Mem(b)|
        ensures Contents(Consumed(WithMem(b, mem), n)) == Contents(WithMem(b, mem))[n..]
      {
        ConsumedDrops(WithMem(b, mem), n);
      }
    } else {
      var mem: bytes := seq(|Mem(b)|, i => if i == b.offset + n then 1 else 0);
      var c := WithMem(b, mem);
      assert Contents(c)[n..][0] == mem[b.offset + n] == 1;
      assert Contents(Consumed(c, n))[0] == mem[b.offset + n - U16] == 0;
    }
  }

  // ---------- In place ----------

  class SSLBuffer {
    var buf: array?<byte>
    var bufAllocated: bool
    var offset: nat
    var size: nat
    var cap: nat
    const inline: array<byte>

    ghost predicate Valid()
      reads this, buf, inline
    {
      && inline.Length == INLINE
      && (bufAllocated <==> buf != null && buf != inline)
      && BufOk(View())
    }

    ghost function View(): Buf
      reads this, buf, inline
    {
      Buf(if buf == null then Nowhere else if buf == inline then Inline else Heap(buf[..]),
          inline[..], offset, size, cap)
    }

    constructor ()
      ensures Valid() && View() == Buf(Nowhere, seq(INLINE, _ => 0), 0, 0, 0)
      ensures fresh(inline) && buf == null
    {
      inline := new byte[INLINE](_ => 0);
      buf, bufAllocated, offset, size, cap := null, false, 0, 0, 0;
    }

    method Clear()
      requires Valid()
      modifies this
      ensures Valid() && View() == Cleared(old(View())) && Contents(View()) == []
      ensures buf == null
    {
      buf, bufAllocated, offset, size, cap := null, false, 0, 0, 0;
    }

    method EnsureCap(headerLen: nat, newCap: nat, a: Alloc) returns (ok: bool)
      requires Valid()
      modifies this, inline
      ensures Valid() && (View(), ok) == Grown(old(View()), headerLen, newCap, a)
      ensures Contents(View()) == old(Contents(View())) && (ok <==> newCap < U16) && (ok ==> cap >= newCap)
      ensures buf == old(buf) || buf == inline || (buf != null && fresh(buf))
    {
      GrownKeeps(View(), headerLen, newCap, a);
      if newCap >= U16 {
        return false;
      }
      if cap >= newCap {
        return true;
      }
      if newCap <= INLINE {
        MoveTo(inline, 0);
        buf, bufAllocated, offset, cap := inline, false, 0, newCap;
      } else {
        var fill := Filled(a.junk, newCap + ALIGN - 1);
        var newBuf := new byte[|fill|](i requires 0 <= i < |fill| => fill[i]);
        assert newBuf[..] == fill;
        var newOffset := AlignedOffset(headerLen, a);
        MoveTo(newBuf, newOffset);
        buf, bufAllocated, offset, cap := newBuf, true, newOffset, newCap;
      }
      return true;
    }

    /** The memmove; the two blocks may be the same one. */
    method MoveTo(dst: array<byte>, off: nat)
      requires Valid() && off + size <= dst.Length
      modifies dst
      ensures dst[..] == Written(old(dst[..]), off, old(Contents(View())))
    {
      var data := Data();
      forall i | 0 <= i < size { dst[off + i] := data[i]; }
    }

    /** A copy into remaining() followed by DidWrite. */
    method Append(data: bytes)
      requires Valid() && |data| <= cap - size
      modifies this`size, buf
      ensures Valid() && View() == Appended(old(View()), data) && Contents(View()) == old(Contents(View())) + data
    {
      AppendedAdds(View(), data);
      hide Contents, BufOk, Appended;
      CopyIn(data);
    }

    method CopyIn(data: bytes)
      requires Valid() && |data| <= cap - size
      modifies this`size, buf
      ensures Valid() && View() == Appended(old(View()), data)
    {
      ghost var was := View();
      if buf != null {
        forall i | 0 <= i < |data| { buf[offset + size + i] := data[i]; }
        assert buf[..] == Written(Mem(was), offset + size, data);
        size := size + |data|;
      }
    }

    method Consume(n: nat)
      requires Valid() && n <= size
      modifies this`offset, this`size, this`cap
      ensures Valid() && View() == Consumed(old(View()), n)
      ensures old(offset) + n < U16 || n == old(size) ==> Contents(View()) == old(Contents(View()))[n..]
    {
      if offset + n < U16 || n == size { ConsumedDrops(View(), n); }
      hide Contents;
      offset := (offset + n) % U16;
      size := size - n;
      cap := cap - n;
    }

    method Data() returns (data: bytes)
      requires Valid()
      ensures data == Contents(View()) && |data| == size
    {
      return if buf == null then [] else buf[offset..offset + size];
    }
  }
}
