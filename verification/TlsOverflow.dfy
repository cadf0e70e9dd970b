/** How much the write buffer may be asked to hold before its 16-bit offset can
    lose bytes: exactly where conservation on the wire ends. */
module TlsOverflow {
  import opened Bytes
  import opened TlsBuffer
  import opened TlsWriter
  import opened TlsStream

  const PIECE := 16384

  /** Of TLS 1.3 with a 16-byte tag: header, inner content type and tag. */
  const OVERHEAD := 22

  const LONG := 49058
  const LEFT := 65529

  function Ones(n: nat): (s: bytes)
    ensures |s| == n
  {
    seq(n, _ => 1)
  }

  /** Records of nothing but ones, a transport that takes 65529 bytes and then
      blocks, and aligned blocks of memory that hold zeros. */
  function World(): Env {
    Env((n, typ, plain) => Some(Ones(|plain| + OVERHEAD)), n => if n == 0 then LEFT else -1, n => Alloc(0, []),
        PIECE, 0, false, false)
  }

  // ---------- A message of three records ----------

  /** The writer with TLS 1.3 keys. */
  function Keyed(): Writer { Start().(aead := Aead(false, OVERHEAD, RECORD_HEADER)) }

  lemma OneRecord(w: Writer, plain: bytes)
    requires WriterOk(w) && w.aead.overhead == OVERHEAD
    ensures var (w', ok) := AddRecord(w, World(), HANDSHAKE, plain);
            && ok && w' == w.(flight := w'.flight, sealed := w'.sealed) && w'.flight.Some?
            && |FlightBytes(w')| == |FlightBytes(w)| + |plain| + OVERHEAD
  {}

  /** The writer after one round of the packing loop. */
  function Packed(w: Writer, rest: bytes): (w': Writer)
    requires WriterOk(w) && w.aead.overhead == OVERHEAD && |w.hs| <= PIECE && rest != []
    ensures WriterOk(w')
  {
    var w1 := MakeRoom(w, World()).0;
    w1.(hs := w1.hs + rest[..Min(|rest|, PIECE - |w1.hs|)])
  }

  lemma PackRound(w: Writer, rest: bytes)
    requires WriterOk(w) && w.aead.overhead == OVERHEAD && |w.hs| <= PIECE && rest != []
    ensures var w' := Packed(w, rest);
            var held := if |w.hs| == PIECE then 0 else |w.hs|;
            var n := Min(|rest|, PIECE - held);
            && Pack(w, World(), rest) == Pack(w', World(), rest[n..])
            && w' == w.(hs := w'.hs, flight := w'.flight, sealed := w'.sealed) && |w'.hs| == held + n
            && |FlightBytes(w')| == |FlightBytes(w)| + if |w.hs| == PIECE then PIECE + OVERHEAD else 0
  {
    if |w.hs| == PIECE { OneRecord(w.(hs := []), w.hs); }
    hide AddRecord;
  }

  /** Two records go into the flight and the third is pending. */
  lemma LongPack(rest: bytes)
    requires |rest| == LONG
    ensures var (w', ok) := Pack(Keyed(), World(), rest);
            && ok && w' == Keyed().(hs := w'.hs, flight := w'.flight, sealed := w'.sealed)
            && |w'.hs| == LONG - 2 * PIECE && |FlightBytes(w')| == 2 * (PIECE + OVERHEAD)
  {
    PackRound(Keyed(), rest);
    var (w1, rest1) := (Packed(Keyed(), rest), rest[PIECE..]);
    PackRound(w1, rest1);
    var (w2, rest2) := (Packed(w1, rest1), rest1[PIECE..]);
    PackRound(w2, rest2);
    hide Packed, WriterOk;
    assert rest2[|rest2|..] == [];
    assert Pack(Packed(w2, rest2), World(), []) == (Packed(w2, rest2), true);
  }

  // ---------- And application data behind it ----------

  /** A flight that fills the buffer with the next record, all but for the last
      byte. */
  predicate Ready(w: Writer) {
    && WriterOk(w) && w.buf == Start().buf && w.calls == 0 && w.hs == [] && w.pend.None? && w.aead == Keyed().aead
    && w.off == 0 && w.flight.Some? && |w.flight.value| + PIECE + OVERHEAD == LEFT + 1 && w.asked == 0
  }

  /** The buffer with the flight and the record in it. */
  function Full(w: Writer, plain: bytes): Writer
    requires Ready(w)
  {
    Fill(w, World(), APPLICATION_DATA, plain).0
  }

  lemma FullIs(w: Writer, plain: bytes)
    requires Ready(w) && |plain| == PIECE
    ensures Fill(w, World(), APPLICATION_DATA, plain).1
    ensures var f := Full(w, plain);
            && f.buf.at.Heap? && f.buf.offset == 7 && f.buf.size == LEFT + 1 && f.buf.at.mem[0] == 0
            && f.flight.None? && f.calls == 0 && f.asked == LEFT + 1
            && f.sealed == w.sealed + [Sealing(APPLICATION_DATA, plain, Ones(PIECE + OVERHEAD))]
  {
    assert AlignedOffset(|w.flight.value| + RECORD_HEADER, Alloc(0, [])) == 7;
  }

  lemma Flushed(f: Writer)
    requires WriterOk(f) && f.buf.at.Heap? && f.buf.offset == 7 && f.buf.size == LEFT + 1 && f.calls == 0
    ensures var w := FlushBuf(f, World()).0;
            && w == f.(calls := 2, wire := w.wire, buf := w.buf)
            && Contents(w.buf) == [f.buf.at.mem[0]]
            && FlushBuf(f, World()).1 <= 0
  {
    var w1 := WriteSome(f, World()).0;
    assert w1.buf.size == 1 && w1.buf.offset == 0;
    assert FlushBuf(w1, World()) == (w1.(calls := 2), -1);
  }

  /** The last byte in the buffer is one that was never sealed. */
  predicate LastIsWrong(w: Writer) {
    && WriterOk(w) && w.asked == LEFT + 1 && w.flight.None? && w.off == 0 && Contents(w.buf) == [0]
    && w.sealed != [] && w.sealed[|w.sealed| - 1].wire != [] && w.sealed[|w.sealed| - 1].wire[|w.sealed[|w.sealed| - 1].wire| - 1] == 1
  }

  lemma WrongByte(w: Writer)
    requires LastIsWrong(w)
    ensures Outflow(w) != Wires(w.sealed)
  {
    var sent := Wires(w.sealed);
    assert sent[|sent| - 1] == 1;
    assert Outflow(w) == w.wire + [0];
  }

  lemma RecordLosesAByte(w: Writer, plain: bytes, id: nat)
    requires Ready(w) && |plain| == PIECE
    ensures var (w', r) := WriteNew(w, World(), APPLICATION_DATA, plain, id); r <= 0 && LastIsWrong(w')
  {
    FullIs(w, plain);
    var p := Full(w, plain).(pend := Some(Pending(PIECE, id, APPLICATION_DATA)));
    hide Fill, FlushBuf;
    Flushed(p);
  }

  lemma WriteLosesAByte(w: Writer, data: bytes)
    requires WriterOk(w) && |data| == PIECE && w.pend.None? && w.buf.size == 0 && w.wnum == 0 && w.closing.shutdown == Open
    requires Ready(FlushHs(w, World()).0) && FlushHs(w, World()).1
    ensures LastIsWrong(WriteApp(w, World(), data, 0, false).0)
  {
    hide FlushHs, WriteNew, Ready, LastIsWrong;
    assert data[0..PIECE] == data;
    RecordLosesAByte(FlushHs(w, World()).0, data, 0);
    assert DoWrite(w, World(), APPLICATION_DATA, data, 0) == WriteNew(FlushHs(w, World()).0, World(), APPLICATION_DATA, data, 0);
    var w' := WriteNew(FlushHs(w, World()).0, World(), APPLICATION_DATA, data, 0).0;
    assert AppRound(w, World(), data, 0, 0, false) == (w'.(wnum := 0), WriteNew(FlushHs(w, World()).0, World(), APPLICATION_DATA, data, 0).1);
    OnlyBytes(w', w'.(wnum := 0));
  }

  lemma OnlyBytes(w: Writer, w': Writer)
    requires LastIsWrong(w) && w' == w.(wnum := w'.wnum)
    ensures LastIsWrong(w')
  {}

  // ---------- Where conservation ends ----------

  predicate Conserved(e: Env, evs: seq<Event>)
    requires EnvOk(e)
  {
    var w := Run(Start(), e, evs);
    Outflow(w) == Wires(w.sealed)
  }

  predicate AsksAtMost(most: nat, e: Env, evs: seq<Event>)
    requires EnvOk(e)
  {
    Run(Start(), e, evs).asked <= most
  }

  ghost predicate AlignedMemory(e: Env) { forall n: nat :: Aligned(e.alloc(n)) }

  /** Under TLS 1.3 keys, a handshake message of 49058 bytes that waits to be sent
      and 16384 bytes of application data behind it, of which the transport takes
      all but the last byte. */
  function LossyRun(): seq<Event> {
    [NewKeys(OVERHEAD, RECORD_HEADER), Handshake(Ones(LONG)), App(Ones(PIECE), 0, false)]
  }

  lemma WorldOk()
    ensures EnvOk(World()) && AlignedMemory(World())
  {}

  lemma LossyRunIs()
    ensures Run(Start(), World(), LossyRun()) ==
            Step(Step(Step(Start(), World(), NewKeys(OVERHEAD, RECORD_HEADER)), World(), Handshake(Ones(LONG))), World(),
                 App(Ones(PIECE), 0, false))
  {
    hide Step, Run, Ones;
    RunThree(Start(), World(), NewKeys(OVERHEAD, RECORD_HEADER), Handshake(Ones(LONG)), App(Ones(PIECE), 0, false));
  }

  lemma LostByte()
    ensures EnvOk(World()) && AlignedMemory(World())
    ensures AsksAtMost(MODEST + 1, World(), LossyRun()) && !Conserved(World(), LossyRun())
  {
    WorldOk();
    hide World, AlignedMemory, LossyRun, LastIsWrong, Step, Run, Ones, Outflow, Wires, Start;
    LossyRunIs();
    ThreeSteps();
    Lost(Run(Start(), World(), LossyRun()));
  }

  lemma ThreeSteps()
    ensures var w := Step(Step(Start(), World(), NewKeys(OVERHEAD, RECORD_HEADER)), World(), Handshake(Ones(LONG)));
            LastIsWrong(Step(w, World(), App(Ones(PIECE), 0, false)))
  {
    KeysStep();
    MessageStep();
    hide Pack, LastIsWrong, FlushHs, Ready;
    var w := Step(Keyed(), World(), Handshake(Ones(LONG)));
    hide Step;
    AppStep(w);
    WriteLosesAByte(w, Ones(PIECE));
  }

  lemma Lost(w: Writer)
    requires LastIsWrong(w)
    ensures w.asked <= MODEST + 1 && Outflow(w) != Wires(w.sealed)
  {
    WrongByte(w);
  }

  lemma KeysStep()
    ensures Step(Start(), World(), NewKeys(OVERHEAD, RECORD_HEADER)) == Keyed()
  {}

  lemma MessageStep()
    ensures var w := Step(Keyed(), World(), Handshake(Ones(LONG)));
            && w.pend.None? && w.buf.size == 0 && w.wnum == 0 && w.closing.shutdown == Open
            && Ready(FlushHs(w, World()).0) && FlushHs(w, World()).1
  {
    LongPack(Ones(LONG));
    hide Pack;
    var w := Step(Keyed(), World(), Handshake(Ones(LONG)));
    OneRecord(w.(hs := []), w.hs);
  }

  lemma AppStep(w: Writer)
    requires WriterOk(w)
    ensures Step(w, World(), App(Ones(PIECE), 0, false)) == WriteApp(w, World(), Ones(PIECE), 0, false).0
  {}

  lemma RunThree(w: Writer, e: Env, a: Event, b: Event, c: Event)
    requires WriterOk(w) && EnvOk(e)
    ensures Run(w, e, [a, b, c]) == Step(Step(Step(w, e, a), e, b), e, c)
  {
    hide Step;
    assert [a, b, c][1..] == [b, c] && [b, c][1..] == [c] && [c][1..] == [];
    assert Run(w, e, [a, b, c]) == Run(Step(w, e, a), e, [b, c]);
    assert Run(Step(w, e, a), e, [b, c]) == Run(Step(Step(w, e, a), e, b), e, [c]);
    assert Run(Step(Step(w, e, a), e, b), e, [c]) == Run(Step(Step(Step(w, e, a), e, b), e, c), e, []);
  }

  /** With memory aligned as malloc aligns it, conservation on the wire holds for
      all runs that ask at most this much of the write buffer if and only if this
      is at most 65529 bytes. */
  lemma ConservationExact(most: nat)
    ensures (forall e: Env, evs: seq<Event> | EnvOk(e) && AlignedMemory(e) && AsksAtMost(most, e, evs) ::
               Conserved(e, evs))
            <==> most <= MODEST
  {
    if most <= MODEST {
      forall e: Env, evs: seq<Event> | EnvOk(e) && AlignedMemory(e) && AsksAtMost(most, e, evs)
        ensures Conserved(e, evs)
      {
        WireConservation(e, evs);
      }
    } else {
      LostByte();
      assert AsksAtMost(most, World(), LossyRun());
    }
  }
}
