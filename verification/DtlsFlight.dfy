/** What a sender's runs guarantee: fragments tile their messages, packets fit
    the MTU, and no record number is used twice. */
module DtlsFlight {
  import opened Bytes
  import opened Reassembly
  import opened DtlsWire
  import opened DtlsWriter

  // ---------- The sender's invariant ----------

  /** A whole message numbered s. */
  predicate IsMessage(data: bytes, s: nat) {
    var p := Parsed(data, 0);
    p.Some? && p.value.0.seqNum == s
  }

  function BodyOf(data: bytes): bytes
    requires Parsed(data, 0).Some?
  {
    Parsed(data, 0).value.1
  }

  predicate MsgOk(w: Writer, m: OutMsg) {
    !m.isCcs ==> Parsed(m.data, 0).Some?
  }

  /** How many of the first i queued messages are handshake messages. */
  function Count(flight: seq<OutMsg>, i: nat): (n: nat)
    requires i <= |flight|
    ensures n <= i
  {
    if i == 0 then 0 else Count(flight, i - 1) + if flight[i - 1].isCcs then 0 else 1
  }

  /** The handshake messages of the flight are the last ones of the transcript,
      in order; i is the place of the flight's i-th entry. */
  function Place(w: Writer, i: nat): int
    requires i <= |w.flight|
  {
    |w.transcript| - Count(w.flight, |w.flight|) + Count(w.flight, i)
  }

  predicate TailOk(w: Writer) {
    && Count(w.flight, |w.flight|) <= |w.transcript|
    && forall i | 0 <= i < |w.flight| && !w.flight[i].isCcs ::
         0 <= Place(w, i) < |w.transcript| && w.flight[i].data == w.transcript[Place(w, i)]
  }

  /** A position is a message and an offset short of its end. */
  predicate PosOk(flight: seq<OutMsg>, i: nat, off: nat) {
    && i <= |flight|
    && (off > 0 ==> i < |flight| && !flight[i].isCcs && Parsed(flight[i].data, 0).Some?
                    && off < |BodyOf(flight[i].data)|)
  }

  predicate WriterOk(w: Writer) {
    && |w.flight| <= N
    && PosOk(w.flight, w.written, w.offset)
    && w.writeSeq == |w.transcript| % SEQ16
    && (forall k | 0 <= k < |w.transcript| :: IsMessage(w.transcript[k], k % SEQ16))
    && (forall i | 0 <= i < |w.flight| :: MsgOk(w, w.flight[i]))
    && TailOk(w)
    && NumbersOk(w)
    && Tile(w.flight, 0, 0, w.log) == Some((w.written, w.offset))
  }

  lemma MessageParses(typ: byte, s: nat, body: bytes)
    requires s < SEQ16 && |body| < Limit(3)
    ensures Parsed(Message(typ, s, body), 0) == Some((Header(typ, |body|, s, 0, |body|), body))
  {
    Limits();
    var h := Header(typ, |body|, s, 0, |body|);
    ParseEncodeFragment(h, body, []);
    assert EncodeFragment(h, body) + [] == EncodeFragment(h, body);
  }

  lemma ParsedAt(data: bytes, off: nat)
    requires Parsed(data, 0).Some? && off <= |BodyOf(data)|
    ensures Parsed(data, off) == Parsed(data, 0)
  {}

  // ---------- Record numbers ----------

  predicate NumberOk(w: Writer, rec: Record) {
    && rec.body.Sealed?
    && rec.body.gen <= w.gen
    && exists s | 0 <= s < SEQ48 :: NumberedBy(w, rec, s)
  }

  /** s is the sequence part of the number, and below the counter of its keys. */
  predicate NumberedBy(w: Writer, rec: Record, s: nat)
    requires rec.body.Sealed?
  {
    && rec.number == Number(Epoch(rec.body.gen), s)
    && (rec.body.gen == w.gen ==> s < w.nextSeq)
    && (rec.body.gen + 1 == w.gen ==> s < w.lastSeq)
  }

  /** Under the same keys, b has the higher number. */
  predicate Ascending(a: Record, b: Record) {
    a.body.Sealed? && b.body.Sealed? && a.body.gen == b.body.gen ==> a.number < b.number
  }

  predicate NumbersOk(w: Writer) {
    && w.nextSeq < SEQ48 && w.lastSeq < SEQ48
    && (forall i | 0 <= i < |w.sealed| :: NumberOk(w, w.sealed[i]))
    && (forall i, j | 0 <= i < j < |w.sealed| :: Ascending(w.sealed[i], w.sealed[j]))
  }

  lemma NumberInjective(e: nat, s: nat, e': nat, s': nat)
    requires s < SEQ48 && s' < SEQ48 && Number(e, s) == Number(e', s')
    ensures e == e' && s == s'
  {}

  lemma SealKeepsNumbers(w: Writer, typ: byte, plain: bytes, usePrev: bool, maxOut: nat)
    requires NumbersOk(w) && SealRecord(w, typ, plain, usePrev, maxOut).1.Some?
    ensures NumbersOk(SealRecord(w, typ, plain, usePrev, maxOut).0)
  {
    var (w', r) := SealRecord(w, typ, plain, usePrev, maxOut);
    var rec := r.value;
    var s := if usePrev then w.lastSeq else w.nextSeq;
    assert NumberedBy(w', rec, s);
    forall i | 0 <= i < |w.sealed|
      ensures NumberOk(w', w.sealed[i]) && Ascending(w.sealed[i], rec)
    {
      assert NumberOk(w, w.sealed[i]);
      var t :| 0 <= t < SEQ48 && NumberedBy(w, w.sealed[i], t);
      assert NumberedBy(w', w.sealed[i], t);
    }
  }

  lemma NewKeysKeepNumbers(w: Writer, c: Cipher)
    requires NumbersOk(w)
    ensures NumbersOk(NewWriteKeys(w, c))
  {
    var w' := NewWriteKeys(w, c);
    forall i | 0 <= i < |w.sealed| ensures NumberOk(w', w.sealed[i]) {
      assert NumberOk(w, w.sealed[i]);
      var t :| 0 <= t < SEQ48 && NumberedBy(w, w.sealed[i], t);
      assert NumberedBy(w', w.sealed[i], t);
    }
  }

  // ---------- Tiling ----------

  /** rec is the next piece of the flight at message i, offset off, sealed in the
      epoch its message was queued in; the result is the position after it. */
  function Follows(flight: seq<OutMsg>, i: nat, off: nat, rec: Record): Option<(nat, nat)> {
    if i >= |flight| || !rec.body.Sealed? || Epoch(rec.body.gen) != flight[i].epoch then None
    else if flight[i].isCcs then
      if off == 0 && rec.typ == CHANGE_CIPHER_SPEC && rec.body.plain == [CCS_BYTE] then Some((i + 1, 0)) else None
    else
      match (Parsed(flight[i].data, off), ParseFragment(rec.body.plain))
      case (Some((h, body)), Ok((fh, fb), rest)) =>
        if && rec.typ == HANDSHAKE && rest == []
           && fh == Header(h.typ, h.msgLen, h.seqNum, off, |fb|)
           && off + |fb| <= |body| && fb == body[off..off + |fb|]
        then
          if off + |fb| == |body| then Some((i + 1, 0))
          else if |fb| > 0 then Some((i, off + |fb|))
          else None
        else None
      case _ => None
  }

  function Tile(flight: seq<OutMsg>, i: nat, off: nat, recs: seq<Record>): Option<(nat, nat)>
    decreases |recs|
  {
    if recs == [] then Some((i, off))
    else
      match Follows(flight, i, off, recs[0])
      case None => None
      case Some((i', off')) => Tile(flight, i', off', recs[1..])
  }

  lemma {:induction false} TileAppend(flight: seq<OutMsg>, i: nat, off: nat, xs: seq<Record>, ys: seq<Record>)
    requires Tile(flight, i, off, xs).Some?
    ensures var p := Tile(flight, i, off, xs).value;
            Tile(flight, i, off, xs + ys) == Tile(flight, p.0, p.1, ys)
    decreases |xs|
  {
    hide Follows;
    if xs == [] {
      assert xs + ys == ys;
    } else {
      var p := Follows(flight, i, off, xs[0]).value;
      assert (xs + ys)[0] == xs[0] && (xs + ys)[1..] == xs[1..] + ys;
      assert Tile(flight, i, off, xs + ys) == Tile(flight, p.0, p.1, xs[1..] + ys);
      TileAppend(flight, p.0, p.1, xs[1..], ys);
    }
  }

  /** Adding to the end of a flight changes nothing already tiled. */
  lemma {:induction false} TileGrows(flight: seq<OutMsg>, more: seq<OutMsg>, i: nat, off: nat, recs: seq<Record>)
    requires Tile(flight, i, off, recs).Some?
    ensures Tile(flight + more, i, off, recs) == Tile(flight, i, off, recs)
    decreases |recs|
  {
    if recs != [] {
      assert Follows(flight + more, i, off, recs[0]) == Follows(flight, i, off, recs[0]);
      var p := Follows(flight, i, off, recs[0]).value;
      TileGrows(flight, more, p.0, p.1, recs[1..]);
    }
  }

  /** The state is unchanged but for the position, the counters and the history
      of sealed records. */
  predicate OnlySealed(w: Writer, w': Writer) {
    w' == w.(written := w'.written, offset := w'.offset, nextSeq := w'.nextSeq, lastSeq := w'.lastSeq, sealed := w'.sealed)
  }

  /** One record, the only news. */
  predicate Sealed1(w: Writer, w': Writer, rec: Record, len: nat, maxOut: nat) {
    && NumbersOk(w') && OnlySealed(w, w') && w'.written == w.written
    && w'.sealed == w.sealed + [rec] && Recent(w, rec)
    && len == RecordLen(w, rec) <= maxOut
  }

  /** Sealed under the current or the previous keys. */
  predicate Recent(w: Writer, rec: Record) {
    rec.body.Sealed? && w.gen - 1 <= rec.body.gen <= w.gen
  }

  function RecordLen(w: Writer, rec: Record): nat {
    if rec.body.Garbage? then 0
    else RT_HEADER + CiphertextLen(if rec.body.gen == w.gen then w.cur else w.prev, |rec.body.plain|)
  }

  /** What one call of dtls_seal_record achieves when it does not fail. */
  lemma SealRecordSpec(w: Writer, typ: byte, plain: bytes, usePrev: bool, maxOut: nat)
    requires NumbersOk(w) && (usePrev ==> w.gen >= 1) && SealRecord(w, typ, plain, usePrev, maxOut).1.Some?
    ensures var (w', r) := SealRecord(w, typ, plain, usePrev, maxOut);
            var g := if usePrev then w.gen - 1 else w.gen;
            && r.value.typ == typ && r.value.body == Sealed(g, plain)
            && Sealed1(w, w', r.value, RecordLen(w, r.value), maxOut) && w'.offset == w.offset
            && RecordLen(w, r.value) == RT_HEADER + CiphertextLen(if usePrev then w.prev else w.cur, |plain|)
  {
    SealKeepsNumbers(w, typ, plain, usePrev, maxOut);
  }

  lemma SealCcsSpec(w: Writer, maxOut: nat)
    requires WriterOkAt(w) && w.written < |w.flight| && w.flight[w.written].isCcs
    ensures SealNextOk(w, maxOut)
  {
    hide NumbersOk, RecordLen, Parsed, CiphertextLen, SealRecord;
    var usePrev := KeysFor(w, w.flight[w.written].epoch) == 1;
    if SealNext(w, maxOut).1.SealSuccess? {
      SealRecordSpec(w, CHANGE_CIPHER_SPEC, [CCS_BYTE], usePrev, maxOut);
    }
  }

  lemma SealPieceSpec(w: Writer, maxOut: nat)
    requires WriterOkAt(w) && w.written < |w.flight| && !w.flight[w.written].isCcs
    ensures SealNextOk(w, maxOut)
  {
    hide NumbersOk, RecordLen, ParseFragment, EncodeFragment, Follows, CiphertextLen, SealRecord;
    var msg := w.flight[w.written];
    var keys := KeysFor(w, msg.epoch);
    var c := if keys == 1 then w.prev else w.cur;
    assert MsgOk(w, msg);
    ParsedAt(msg.data, w.offset);
    var (h, body) := Parsed(msg.data, w.offset).value;
    if keys != 2 && maxOut >= HM_HEADER_LENGTH + 1 + Overhead(c) {
      var todo := Min(|body| - w.offset, maxOut - HM_HEADER_LENGTH - Overhead(c));
      var plain := Piece(h, body, w.offset, todo);
      if SealRecord(w, HANDSHAKE, plain, keys == 1, maxOut).1.Some? {
        SealRecordSpec(w, HANDSHAKE, plain, keys == 1, maxOut);
        PieceFollows(w.flight, w.written, w.offset, todo, SealRecord(w, HANDSHAKE, plain, keys == 1, maxOut).1.value);
        NumbersFrame(SealRecord(w, HANDSHAKE, plain, keys == 1, maxOut).0, SealNext(w, maxOut).0);
      }
    }
  }

  lemma PieceFollows(flight: seq<OutMsg>, i: nat, off: nat, todo: nat, rec: Record)
    requires i < |flight| && !flight[i].isCcs && Parsed(flight[i].data, off).Some?
    requires var (h, body) := Parsed(flight[i].data, off).value;
             && off + todo <= |body| && (todo > 0 || off == |body|)
             && rec.typ == HANDSHAKE && rec.body.Sealed? && Epoch(rec.body.gen) == flight[i].epoch
             && rec.body.plain == Piece(h, body, off, todo)
    ensures Follows(flight, i, off, rec) ==
            Some(if off + todo == |Parsed(flight[i].data, off).value.1| then (i + 1, 0) else (i, off + todo))
  {
    var (h, body) := Parsed(flight[i].data, off).value;
    PieceParses(h, body, off, todo);
  }

  lemma SealNextSpec(w: Writer, maxOut: nat)
    requires WriterOkAt(w) && w.written < |w.flight|
    ensures SealNextOk(w, maxOut)
  {
    if w.flight[w.written].isCcs { SealCcsSpec(w, maxOut); } else { SealPieceSpec(w, maxOut); }
  }

  /** What one call of seal_next_message achieves. */
  predicate SealNextOk(w: Writer, maxOut: nat)
    requires w.written < |w.flight|
  {
    var (w', r) := SealNext(w, maxOut);
    match r
    case SealError => true
    case NoProgress => w' == w
    case SealSuccess(rec, len) =>
      && Sealed1(w, w', rec, len, maxOut) && w'.offset == 0
      && Follows(w.flight, w.written, w.offset, rec) == Some((w.written + 1, 0))
    case SealPartial(rec, len) =>
      && Sealed1(w, w', rec, len, maxOut)
      && Follows(w.flight, w.written, w.offset, rec) == Some((w.written, w'.offset))
      && PosOk(w.flight, w.written, w'.offset)
  }

  /** WriterOk without the history of accepted records. */
  predicate WriterOkAt(w: Writer) {
    && |w.flight| <= N
    && PosOk(w.flight, w.written, w.offset)
    && (forall i | 0 <= i < |w.flight| :: MsgOk(w, w.flight[i]))
    && NumbersOk(w)
  }

  lemma PieceParses(h: Header, body: bytes, off: nat, todo: nat)
    requires FitsHeader(h) && h.msgLen == |body| && off + todo <= |body|
    ensures ParseFragment(Piece(h, body, off, todo)) ==
            Ok((Header(h.typ, h.msgLen, h.seqNum, off, todo), body[off..off + todo]), [])
  {
    var fh, fb := Header(h.typ, h.msgLen, h.seqNum, off, todo), body[off..off + todo];
    ParseEncodeFragment(fh, fb, []);
    assert EncodeFragment(fh, fb) + [] == Piece(h, body, off, todo);
  }

  function TotalLen(w: Writer, recs: seq<Record>): nat {
    if recs == [] then 0 else RecordLen(w, recs[0]) + TotalLen(w, recs[1..])
  }

  /** recs were sealed one after the other: they are the next pieces of the
      flight and take at most room bytes. */
  predicate PacketOk(w: Writer, w': Writer, recs: seq<Record>, room: nat) {
    && OnlySealed(w, w') && WriterOkAt(w')
    && w'.sealed == w.sealed + recs && (forall i | 0 <= i < |recs| :: Recent(w, recs[i]))
    && Tile(w.flight, w.written, w.offset, recs) == Some((w'.written, w'.offset))
    && TotalLen(w, recs) <= room
  }

  lemma PacketCons(w: Writer, w1: Writer, w': Writer, rec: Record, more: seq<Record>, room: nat)
    requires PacketOk(w, w1, [rec], RecordLen(w, rec)) && RecordLen(w, rec) <= room
    requires PacketOk(w1, w', more, room - RecordLen(w, rec))
    ensures PacketOk(w, w', [rec] + more, room)
  {
    hide NumbersOk, Follows, Parsed, RecordLen, MsgOk, PosOk, TotalLen;
    TileAppend(w.flight, w.written, w.offset, [rec], more);
    TotalLenCons(w, w1, rec, more);
  }

  /** One more record, and the position after it. */
  lemma PacketOne(w: Writer, w1: Writer, w2: Writer, rec: Record, len: nat, room: nat)
    requires WriterOkAt(w) && Sealed1(w, w1, rec, len, room)
    requires w2 == w1.(written := w2.written) && PosOk(w.flight, w2.written, w2.offset)
    requires Follows(w.flight, w.written, w.offset, rec) == Some((w2.written, w2.offset))
    ensures PacketOk(w, w2, [rec], RecordLen(w, rec)) && RecordLen(w, rec) <= room
  {
    NumbersFrame(w1, w2);
    hide NumbersOk, Follows, Parsed, RecordLen;
    OneRecord(w, rec, (w2.written, w2.offset));
  }

  /** What the loop of seal_next_packet achieves when it does not fail. */
  lemma {:induction false} SealMoreSpec(w: Writer, maxOut: nat, recs: seq<Record>)
    requires WriterOkAt(w)
    ensures var (w', r) := SealMore(w, maxOut, recs);
            r.Some? ==> recs <= r.value && r.value != [] && PacketOk(w, w', r.value[|recs|..], maxOut)
    decreases |w.flight| - w.written
  {
    hide SealNext, PacketOk, Sealed1, NumbersOk, MsgOk, Follows, RecordLen, Parsed;
    if w.written >= |w.flight| {
      assert recs[|recs|..] == [];
      PacketNone(w, maxOut);
      return;
    }
    SealNextSpec(w, maxOut);
    var (w1, r1) := SealNext(w, maxOut);
    match r1 {
      case SealError =>
      case NoProgress =>
        assert recs[|recs|..] == [];
        PacketNone(w, maxOut);
      case SealPartial(rec, len) =>
        assert (recs + [rec])[..|recs|] == recs;
        assert (recs + [rec])[|recs|..] == [rec];
        LenOf(w, w1, rec, len, maxOut);
        PacketOne(w, w1, w1, rec, len, maxOut);
        PacketRoom(w, w1, [rec], RecordLen(w, rec), maxOut);
      case SealSuccess(rec, len) =>
        LenOf(w, w1, rec, len, maxOut);
        var w2 := w1.(written := w1.written + 1);
        PacketOne(w, w1, w2, rec, len, maxOut);
        PacketKeeps(w, w2, [rec], RecordLen(w, rec));
        SealMoreSpec(w2, maxOut - len, recs + [rec]);
        var (w', r) := SealMore(w2, maxOut - len, recs + [rec]);
        if r.Some? {
          var more := r.value[|recs| + 1..];
          assert r.value[|recs|..] == [rec] + more;
          PacketCons(w, w2, w', rec, more, maxOut);
        }
    }
  }

  lemma PacketNone(w: Writer, room: nat)
    requires WriterOkAt(w)
    ensures PacketOk(w, w, [], room)
  {}

  lemma PacketRoom(w: Writer, w': Writer, recs: seq<Record>, room: nat, more: nat)
    requires PacketOk(w, w', recs, room) && room <= more
    ensures PacketOk(w, w', recs, more)
  {}

  lemma PacketKeeps(w: Writer, w': Writer, recs: seq<Record>, room: nat)
    requires PacketOk(w, w', recs, room)
    ensures WriterOkAt(w') && w'.flight == w.flight
  {}

  lemma LenOf(w: Writer, w': Writer, rec: Record, len: nat, room: nat)
    requires Sealed1(w, w', rec, len, room)
    ensures len == RecordLen(w, rec) <= room && w'.written == w.written && w'.flight == w.flight
  {}

  lemma OneRecord(w: Writer, rec: Record, p: (nat, nat))
    requires Follows(w.flight, w.written, w.offset, rec) == Some(p)
    ensures Tile(w.flight, w.written, w.offset, [rec]) == Some(p)
    ensures TotalLen(w, [rec]) == RecordLen(w, rec)
  {
    assert Tile(w.flight, p.0, p.1, [rec][1..]) == Some(p);
  }

  lemma {:induction false} TotalLenSame(w: Writer, w': Writer, recs: seq<Record>)
    requires w.gen == w'.gen && w.cur == w'.cur && w.prev == w'.prev
    ensures TotalLen(w, recs) == TotalLen(w', recs)
  {
    if recs != [] { TotalLenSame(w, w', recs[1..]); }
  }

  lemma TotalLenCons(w: Writer, w': Writer, rec: Record, more: seq<Record>)
    requires w.gen == w'.gen && w.cur == w'.cur && w.prev == w'.prev
    ensures TotalLen(w, [rec] + more) == RecordLen(w, rec) + TotalLen(w', more)
  {
    assert ([rec] + more)[1..] == more;
    TotalLenSame(w, w', more);
  }

  /** Every packet fits the MTU, and its records are the next pieces of the
      flight. */
  lemma PacketSpec(w: Writer)
    requires WriterOkAt(w)
    ensures var (w', r) := SealPacket(w);
            r.Some? ==> r.value != [] && PacketOk(w, w', r.value, w.mtu)
  {
    hide PacketOk, SealMore;
    SealMoreSpec(w, w.mtu, []);
    var (w', r) := SealPacket(w);
    if r.Some? { assert r.value[0..] == r.value; }
  }

  // ---------- Progress of send_flight ----------

  /** What is left to send: messages, then bytes of the message under way. */
  function BytesLeft(w: Writer): nat {
    if w.written < |w.flight| && Parsed(w.flight[w.written].data, 0).Some? && w.offset <= |BodyOf(w.flight[w.written].data)|
    then |BodyOf(w.flight[w.written].data)| - w.offset else 0
  }

  lemma {:induction false} TileAdvances(flight: seq<OutMsg>, i: nat, off: nat, recs: seq<Record>)
    requires recs != [] && Tile(flight, i, off, recs).Some?
    ensures var (i', off') := Tile(flight, i, off, recs).value;
            i < i' <= |flight| || (i == i' && off < off')
    decreases |recs|
  {
    var p := Follows(flight, i, off, recs[0]).value;
    if recs[1..] == [] {
      assert Tile(flight, p.0, p.1, recs[1..]) == Some(p);
    } else {
      TileAdvances(flight, p.0, p.1, recs[1..]);
    }
  }

  /** Each accepted packet strictly decreases (messages left, bytes left). */
  lemma PacketProgress(w: Writer)
    requires WriterOkAt(w) && SendPacket(w, true).1.Some?
    ensures var w' := SendPacket(w, true).0;
            && w'.flight == w.flight && w'.written <= |w.flight|
            && (w'.written > w.written || (w'.written == w.written && BytesLeft(w') < BytesLeft(w)))
  {
    PacketSpec(w);
    var (w', r) := SealPacket(w);
    TileAdvances(w.flight, w.written, w.offset, r.value);
  }

  // ---------- When a packet can be sealed ----------

  /** Keys are at hand for every queued message, and their counters will last. */
  predicate CanSeal(w: Writer) {
    && (forall i | w.written <= i < |w.flight| :: KeysFor(w, w.flight[i].epoch) != 2)
    && w.nextSeq + (|w.flight| - w.written) < SEQ48 && w.lastSeq + (|w.flight| - w.written) < SEQ48
  }

  /** Room for a fragment with one byte, under either keys. */
  predicate RoomFor(w: Writer, room: nat) {
    room >= HM_HEADER_LENGTH + 1 + Overhead(w.cur) && room >= HM_HEADER_LENGTH + 1 + Overhead(w.prev)
  }

  /** A record this long has a length field. */
  predicate LengthFits(room: nat) { room < 0xffff + RT_HEADER }

  lemma RecordSucceeds(w: Writer, typ: byte, plain: bytes, usePrev: bool, room: nat)
    requires (usePrev ==> w.gen >= 1) && w.nextSeq + 1 < SEQ48 && w.lastSeq + 1 < SEQ48
    requires room >= RT_HEADER && LengthFits(room)
    requires CiphertextLen(if usePrev then w.prev else w.cur, |plain|) + RT_HEADER <= room
    ensures var (w', r) := SealRecord(w, typ, plain, usePrev, room);
            r.Some? && w' == w.(nextSeq := w'.nextSeq, lastSeq := w'.lastSeq, sealed := w'.sealed)
            && w'.nextSeq <= w.nextSeq + 1 && w'.lastSeq <= w.lastSeq + 1
  {
    hide CiphertextLen;
  }

  lemma KeysThere(w: Writer, epoch: nat)
    requires KeysFor(w, epoch) == 1
    ensures w.gen >= 1
  {}

  lemma SealCcsSucceeds(w: Writer, room: nat)
    requires WriterOkAt(w) && w.written < |w.flight| && CanSeal(w) && LengthFits(room) && w.flight[w.written].isCcs
    ensures SealNextFine(w, room)
  {
    hide NumbersOk, SealRecord, Parsed, CiphertextLen, PosOk;
    var prev := KeysFor(w, w.flight[w.written].epoch) == 1;
    if prev { KeysThere(w, w.flight[w.written].epoch); }
    CiphertextBound(if prev then w.prev else w.cur, 1);
    if room >= 1 + Overhead(if prev then w.prev else w.cur) {
      RecordSucceeds(w, CHANGE_CIPHER_SPEC, [CCS_BYTE], prev, room);
    }
  }

  lemma CiphertextBound(c: Cipher, n: nat)
    ensures CiphertextLen(c, n) + RT_HEADER <= n + Overhead(c)
  {}

  lemma SealPieceSucceeds(w: Writer, room: nat)
    requires WriterOkAt(w) && w.written < |w.flight| && CanSeal(w) && LengthFits(room) && !w.flight[w.written].isCcs
    ensures SealNextFine(w, room)
  {
    hide NumbersOk, SealRecord, ParseFragment, CiphertextLen, EncodeFragment;
    var msg := w.flight[w.written];
    assert MsgOk(w, msg);
    ParsedAt(msg.data, w.offset);
    var prev := KeysFor(w, msg.epoch) == 1;
    if prev { KeysThere(w, msg.epoch); }
    var c := if prev then w.prev else w.cur;
    var (h, body) := Parsed(msg.data, w.offset).value;
    hide Parsed, PosOk;
    if room >= HM_HEADER_LENGTH + 1 + Overhead(c) {
      var todo := Min(|body| - w.offset, room - HM_HEADER_LENGTH - Overhead(c));
      CiphertextBound(c, HM_HEADER_LENGTH + todo);
      RecordSucceeds(w, HANDSHAKE, Piece(h, body, w.offset, todo), prev, room);
    }
  }

  /** Sealing the next message does not fail, and makes progress if there is
      room. */
  predicate SealNextFine(w: Writer, room: nat)
    requires w.written < |w.flight|
  {
    var (w', r) := SealNext(w, room);
    && !r.SealError?
    && (RoomFor(w, room) ==> !r.NoProgress?)
    && (r.SealSuccess? ==> r.len <= room && w'.flight == w.flight && w'.written == w.written
                           && w'.gen == w.gen && w'.nextSeq <= w.nextSeq + 1 && w'.lastSeq <= w.lastSeq + 1)
  }

  lemma SealNextSucceeds(w: Writer, room: nat)
    requires WriterOkAt(w) && w.written < |w.flight| && CanSeal(w) && LengthFits(room)
    ensures SealNextFine(w, room)
  {
    if w.flight[w.written].isCcs { SealCcsSucceeds(w, room); } else { SealPieceSucceeds(w, room); }
  }

  lemma CanSealOn(w: Writer, w': Writer)
    requires CanSeal(w) && w.written < |w.flight| && w'.flight == w.flight && w'.written == w.written && w'.gen == w.gen
    requires w'.nextSeq <= w.nextSeq + 1 && w'.lastSeq <= w.lastSeq + 1
    ensures CanSeal(w'.(written := w.written + 1))
  {}

  /** With keys, counters and an MTU that leaves room for a fragment and that a
      record length can express, sealing a packet always succeeds. */
  lemma PacketSucceeds(w: Writer)
    requires WriterOkAt(w) && w.written < |w.flight| && CanSeal(w) && RoomFor(w, w.mtu) && LengthFits(w.mtu)
    ensures SealPacket(w).1.Some?
  {
    SealMoreSucceeds(w, w.mtu, []);
  }

  lemma {:induction false} SealMoreSucceeds(w: Writer, room: nat, recs: seq<Record>)
    requires WriterOkAt(w) && CanSeal(w) && LengthFits(room)
    requires recs != [] || (w.written < |w.flight| && RoomFor(w, room))
    ensures SealMore(w, room, recs).1.Some?
    decreases |w.flight| - w.written
  {
    hide SealNext, Sealed1, NumbersOk, MsgOk, Follows, RecordLen, Parsed, PosOk, CanSeal, RoomFor, WriterOkAt, SealNextOk, LengthFits;
    if w.written < |w.flight| {
      SealNextSucceeds(w, room);
      SealNextSpec(w, room);
      match SealNext(w, room) {
        case (w', SealSuccess(rec, len)) =>
          CanSealOn(w, w');
          AfterSealed(w, w', rec, len, room);
          ShorterFits(room, len);
          SealMoreSucceeds(w'.(written := w.written + 1), room - len, recs + [rec]);
        case (w', r) =>
      }
    }
  }

  lemma ShorterFits(room: nat, len: nat)
    requires LengthFits(room) && len <= room
    ensures LengthFits(room - len)
  {}

  lemma AfterSealed(w: Writer, w': Writer, rec: Record, len: nat, room: nat)
    requires WriterOkAt(w) && w.written < |w.flight| && SealNext(w, room) == (w', SealSuccess(rec, len)) && SealNextOk(w, room)
    ensures WriterOkAt(w'.(written := w.written + 1))
  {
    hide NumbersOk, Follows, RecordLen, Parsed, SealNext;
    PacketOne(w, w', w'.(written := w.written + 1), rec, len, room);
  }

  /** An MTU larger than a record length can express makes a large message fail
      instead of being cut smaller. */
  lemma LargePacketFails(w: Writer)
    requires w.written < |w.flight| && !w.flight[w.written].isCcs && w.offset == 0
    requires KeysFor(w, w.flight[w.written].epoch) == 0 && Parsed(w.flight[w.written].data, 0).Some?
    requires |BodyOf(w.flight[w.written].data)| + HM_HEADER_LENGTH >= 0xffff
    requires w.mtu >= |BodyOf(w.flight[w.written].data)| + HM_HEADER_LENGTH + Overhead(w.cur)
    ensures SealPacket(w).1.None?
  {
    hide Parsed, EncodeFragment;
  }

  datatype Outcome = Done | Blocked(code: int) | Failed | Shut

  /** The loop of send_flight against a transport whose n-th answer is answer(n):
      the final state, the packets accepted, the answers used and how it ended. */
  function SendLoop(w: Writer, answer: nat -> int, n: nat): (r: (Writer, seq<seq<Record>>, nat, Outcome))
    requires WriterOkAt(w)
    decreases |w.flight| - w.written, BytesLeft(w)
  {
    if w.written >= |w.flight| then (w, [], n, Done)
    else
      match SendPacket(w, answer(n) > 0)
      case (w', None) => (w', [], n, Failed)
      case (w', Some(recs)) =>
        if answer(n) <= 0 then (w', [], n + 1, Blocked(answer(n)))
        else
          RoundOk(w, true);
          PacketProgress(w);
          var (w3, packets, n', out) := SendLoop(w', answer, n + 1);
          (w3, [recs] + packets, n', out)
  }

  /** send_flight: nothing once writing is shut down or without a transport; then the
      MTU, the loop, and the transport's own flush, which may block too. */
  function SendFlight(w: Writer, closed: bool, mtu: nat, answer: nat -> int, n: nat): (r: (Writer, seq<seq<Record>>, nat, Outcome))
    requires WriterOkAt(w) && WriterOkAt(w.(mtu := mtu))
  {
    if closed then (w, [], n, Shut)
    else
      match SendLoop(w.(mtu := mtu), answer, n)
      case (w', packets, n', Done) => (w', packets, n' + 1, if answer(n') <= 0 then Blocked(-1) else Done)
      case r => r
  }

  /** One round of the loop leaves the queue alone and, when it does not fail,
      the state in order. */
  lemma RoundOk(w: Writer, accepted: bool)
    requires WriterOkAt(w)
    ensures var (w', packet) := SendPacket(w, accepted);
            w'.flight == w.flight && (packet.Some? ==> WriterOkAt(w'))
  {
    hide SealMore, NumbersOk, Parsed, Tile, TotalLen;
    PacketSpec(w);
    SealMoreFlight(w, w.mtu, []);
    var (w1, packet) := SealPacket(w);
    if packet.Some? {
      MoveKeepsOkAt(w, w1, w1.(written := w.written, offset := w.offset));
      LogIsFree(w1, w1.(log := w1.log + packet.value));
    }
  }

  lemma {:induction false} SealMoreFlight(w: Writer, maxOut: nat, recs: seq<Record>)
    ensures SealMore(w, maxOut, recs).0.flight == w.flight
    decreases |w.flight| - w.written
  {
    hide SealNext;
    if w.written < |w.flight| {
      SealNextFlight(w, maxOut);
      match SealNext(w, maxOut) {
        case (w', SealSuccess(rec, len)) =>
          SealMoreFlight(w'.(written := w.written + 1), if len <= maxOut then maxOut - len else 0, recs + [rec]);
        case (w', r) =>
      }
    }
  }

  lemma SealNextFlight(w: Writer, maxOut: nat)
    requires w.written < |w.flight|
    ensures SealNext(w, maxOut).0.flight == w.flight && SealNext(w, maxOut).0.written == w.written
  {
    hide CiphertextLen, Parsed, Piece;
  }

  lemma MoveKeepsOkAt(w: Writer, w1: Writer, w': Writer)
    requires WriterOkAt(w) && NumbersOk(w1) && OnlySealed(w, w1)
    requires w' == w1.(written := w.written, offset := w.offset)
    ensures WriterOkAt(w')
  {
    hide Parsed;
    NumbersFrame(w1, w');
    hide NumbersOk;
    forall i | 0 <= i < |w.flight| ensures MsgOk(w', w'.flight[i]) { assert MsgOk(w, w.flight[i]); }
  }

  lemma LogIsFree(w: Writer, w': Writer)
    requires WriterOkAt(w) && w' == w.(log := w'.log)
    ensures WriterOkAt(w')
  {
    hide Parsed;
    NumbersFrame(w, w');
    forall i | 0 <= i < |w.flight| ensures MsgOk(w', w'.flight[i]) { assert MsgOk(w, w.flight[i]); }
  }

  function Attempts(answer: nat -> int, n: nat, m: nat): seq<Event>
    decreases m - n
  {
    if n >= m then [] else [Packet(answer(n) > 0)] + Attempts(answer, n + 1, m)
  }

  function Concat(packets: seq<seq<Record>>): seq<Record> {
    if packets == [] then [] else packets[0] + Concat(packets[1..])
  }

  /** The loop is a run of the events it is made of, each accepted packet fits
      the MTU, and it ends with the flight sent or a refused packet. */
  lemma {:induction false} SendLoopIsRun(w: Writer, answer: nat -> int, n: nat)
    requires WriterOkAt(w) && SendLoop(w, answer, n).3 != Failed
    ensures var (w', packets, m, out) := SendLoop(w, answer, n);
            && m >= n && Run(w, Attempts(answer, n, m)) == Some(w')
            && w'.log == w.log + Concat(packets)
            && (forall i | 0 <= i < |packets| :: TotalLen(w, packets[i]) <= w.mtu)
            && (out.Done? ==> w'.written == |w'.flight|)
    decreases |w.flight| - w.written, BytesLeft(w)
  {
    hide SealPacket, NumbersOk, Parsed, Tile, TotalLen;
    if w.written < |w.flight| {
      RoundOk(w, answer(n) > 0);
      PacketSpec(w);
      var (w1, packet) := SendPacket(w, answer(n) > 0);
      if answer(n) > 0 {
        PacketProgress(w);
        SendLoopIsRun(w1, answer, n + 1);
        var (w', packets, m, out) := SendLoop(w1, answer, n + 1);
        assert Attempts(answer, n, m)[1..] == Attempts(answer, n + 1, m);
        assert ([packet.value] + packets)[1..] == packets;
        assert w1.log + Concat(packets) == w.log + Concat([packet.value] + packets);
        forall i | 0 <= i < |packets| ensures TotalLen(w, packets[i]) <= w.mtu {
          TotalLenSame(w, w1, packets[i]);
        }
      } else {
        assert Attempts(answer, n, n + 1)[1..] == [];
        assert w.log + [] == w.log;
      }
    }
  }

  /** Success means that the whole flight was written, in packets that fit the MTU,
      and that the last answer was a good one too. */
  lemma SentWhole(w: Writer, closed: bool, mtu: nat, answer: nat -> int, n: nat)
    requires WriterOkAt(w) && WriterOkAt(w.(mtu := mtu))
    ensures var (w', packets, m, out) := SendFlight(w, closed, mtu, answer, n);
            out.Done? ==>
              && !closed && m > n && answer(m - 1) > 0 && w'.written == |w'.flight|
              && w'.log == w.log + Concat(packets)
              && forall i | 0 <= i < |packets| :: TotalLen(w.(mtu := mtu), packets[i]) <= mtu
  {
    hide SendLoop, Run, TotalLen, WriterOkAt;
    if !closed && SendLoop(w.(mtu := mtu), answer, n).3 != Failed { SendLoopIsRun(w.(mtu := mtu), answer, n); }
  }

  // ---------- The invariant over runs ----------

  lemma {:induction false} CountPrefix(flight: seq<OutMsg>, more: seq<OutMsg>, i: nat)
    requires i <= |flight|
    ensures Count(flight + more, i) == Count(flight, i)
  {
    if i > 0 { CountPrefix(flight, more, i - 1); }
  }

  lemma {:induction false} CountMono(flight: seq<OutMsg>, i: nat, j: nat)
    requires i <= j <= |flight|
    ensures Count(flight, i) <= Count(flight, j)
  {
    if i < j { CountMono(flight, i, j - 1); }
  }

  lemma AddKeepsTail(w: Writer, isCcs: bool, data: bytes)
    requires TailOk(w) && AddOutgoing(w, isCcs, data).1
    ensures TailOk(AddOutgoing(w, isCcs, data).0)
  {
    var w1 := if w.complete then Clear(w) else w;
    assert TailOk(w1);
    GrowKeepsTail(w1, AddOutgoing(w, isCcs, data).0, OutMsg(data, Epoch(w1.gen), isCcs));
  }

  /** Queueing one more message moves no message's place. */
  lemma PlaceGrows(w: Writer, w': Writer, m: OutMsg, i: nat)
    requires w'.flight == w.flight + [m] && i <= |w.flight|
    requires |w'.transcript| == |w.transcript| + if m.isCcs then 0 else 1
    ensures Place(w', i) == Place(w, i)
    ensures !m.isCcs ==> Place(w', |w.flight|) == |w.transcript|
  {
    var n := |w.flight|;
    CountPrefix(w.flight, [m], n);
    CountPrefix(w.flight, [m], i);
    assert Count(w'.flight, n + 1) == Count(w.flight, n) + if m.isCcs then 0 else 1;
  }

  lemma GrowKeepsTail(w: Writer, w': Writer, m: OutMsg)
    requires TailOk(w) && w'.flight == w.flight + [m]
    requires w'.transcript == w.transcript + if m.isCcs then [] else [m.data]
    ensures TailOk(w')
  {
    var n := |w.flight|;
    CountPrefix(w.flight, [m], n);
    assert Count(w'.flight, n + 1) == Count(w.flight, n) + if m.isCcs then 0 else 1;
    hide Count, Place;
    forall i | 0 <= i < |w'.flight| && !w'.flight[i].isCcs
      ensures 0 <= Place(w', i) < |w'.transcript| && w'.flight[i].data == w'.transcript[Place(w', i)]
    {
      PlaceGrows(w, w', m, if i < n then i else n);
    }
  }

  lemma AddKeepsOk(w: Writer, isCcs: bool, data: bytes)
    requires WriterOk(w) && AddOutgoing(w, isCcs, data).1
    requires !isCcs ==> IsMessage(data, w.writeSeq)
    ensures WriterOk(AddOutgoing(w, isCcs, data).0)
  {
    hide NumbersOk, Follows, Parsed, TailOk;
    AddKeepsTail(w, isCcs, data);
    var w1 := if w.complete then Clear(w) else w;
    var w' := AddOutgoing(w, isCcs, data).0;
    TileGrows(w1.flight, [OutMsg(data, Epoch(w1.gen), isCcs)], 0, 0, w1.log);
    NumbersFrame(w, w');
  }

  /** Only the counters and the records sealed matter to the numbering. */
  lemma NumbersFrame(w: Writer, w': Writer)
    requires NumbersOk(w) && w'.sealed == w.sealed && w'.gen == w.gen
    requires w'.nextSeq == w.nextSeq && w'.lastSeq == w.lastSeq
    ensures NumbersOk(w')
  {
    forall i | 0 <= i < |w.sealed| ensures NumberOk(w', w.sealed[i]) {
      assert NumberOk(w, w.sealed[i]);
      var t :| 0 <= t < SEQ48 && NumberedBy(w, w.sealed[i], t);
      assert NumberedBy(w', w.sealed[i], t);
    }
  }

  /** The position, the counters and the log may change as long as they stay
      consistent; the queue must not. */
  lemma MoveKeepsOk(w: Writer, w': Writer)
    requires WriterOk(w)
    requires w'.flight == w.flight && w'.transcript == w.transcript && w'.writeSeq == w.writeSeq
    requires PosOk(w'.flight, w'.written, w'.offset) && NumbersOk(w')
    requires Tile(w'.flight, 0, 0, w'.log) == Some((w'.written, w'.offset))
    ensures WriterOk(w')
  {
    hide NumbersOk, Tile, Parsed, PosOk, Count;
    assert Count(w'.flight, |w'.flight|) == Count(w.flight, |w.flight|);
    forall i | 0 <= i < |w.flight| ensures MsgOk(w', w'.flight[i]) { assert MsgOk(w, w.flight[i]); }
    forall i | 0 <= i < |w'.flight| && !w'.flight[i].isCcs
      ensures 0 <= Place(w', i) < |w'.transcript| && w'.flight[i].data == w'.transcript[Place(w', i)]
    {
      assert Place(w', i) == Place(w, i);
    }
  }

  lemma PacketKeepsOk(w: Writer, accepted: bool)
    requires WriterOk(w) && SendPacket(w, accepted).1.Some?
    ensures WriterOk(SendPacket(w, accepted).0)
  {
    hide NumbersOk, Follows, Parsed, TailOk, TotalLen, IsMessage;
    PacketSpec(w);
    var (w1, r) := SealPacket(w);
    var w' := SendPacket(w, accepted).0;
    NumbersFrame(w1, w');
    if accepted {
      TileAppend(w.flight, 0, 0, w.log, r.value);
    }
    MoveKeepsOk(w, w');
  }

  lemma OtherKeepsOk(w: Writer, typ: byte, plain: bytes, room: nat)
    requires WriterOk(w) && SealRecord(w, typ, plain, false, room).1.Some?
    ensures WriterOk(SealRecord(w, typ, plain, false, room).0)
  {
    hide NumbersOk, Follows, Parsed, TailOk, Tile;
    SealKeepsNumbers(w, typ, plain, false, room);
    MoveKeepsOk(w, SealRecord(w, typ, plain, false, room).0);
  }

  lemma StartOk()
    ensures WriterOk(Start())
  {}

  lemma ClearKeepsOk(w: Writer)
    requires WriterOk(w)
    ensures WriterOk(Clear(w))
  {
    hide Parsed;
    NumbersFrame(w, Clear(w));
  }

  lemma QuietKeepsOk(w: Writer, w': Writer)
    requires WriterOk(w)
    requires w' == w.(complete := w'.complete, mtu := w'.mtu, hasReply := w'.hasReply) || w' == Rewind(w)
    ensures WriterOk(w')
  {
    hide Parsed, TailOk, Follows;
    NumbersFrame(w, w');
    MoveKeepsOk(w, w');
  }

  lemma KeysKeepOk(w: Writer, c: Cipher)
    requires WriterOk(w)
    ensures WriterOk(NewWriteKeys(w, c))
  {
    hide Parsed, TailOk, Follows, NumbersOk, Tile;
    NewKeysKeepNumbers(w, c);
    MoveKeepsOk(w, NewWriteKeys(w, c));
  }

  lemma AddMessageKeepsOk(w: Writer, typ: byte, body: bytes)
    requires WriterOk(w) && |body| < Limit(3)
    requires AddOutgoing(w, false, Message(typ, w.writeSeq, body)).1
    ensures WriterOk(AddOutgoing(w, false, Message(typ, w.writeSeq, body)).0)
  {
    hide Parsed, TailOk, Follows, NumbersOk, Tile, Message, AddOutgoing;
    MessageParses(typ, w.writeSeq, body);
    assert IsMessage(Message(typ, w.writeSeq, body), w.writeSeq);
    AddKeepsOk(w, false, Message(typ, w.writeSeq, body));
  }

  lemma StepKeepsOk(w: Writer, e: Event)
    requires WriterOk(w) && Step(w, e).Some?
    ensures WriterOk(Step(w, e).value)
  {
    hide WriterOk, AddOutgoing, SendPacket, SealRecord, Message;
    var w' := Step(w, e).value;
    match e {
      case AddMessage(typ, body) => AddMessageKeepsOk(w, typ, body);
      case AddChangeCipherSpec => AddKeepsOk(w, true, []);
      case Packet(accepted) => if w.written < |w.flight| { PacketKeepsOk(w, accepted); }
      case WriteKeys(cipher) => KeysKeepOk(w, cipher);
      case OtherRecord(alert, plain, room) => OtherKeepsOk(w, if alert then ALERT else APPLICATION_DATA, plain, room);
      case HandshakeComplete => ClearKeepsOk(w);
      case BeginFlush => QuietKeepsOk(w, w');
      case Retransmit => QuietKeepsOk(w, w');
      case SetMtu(mtu) => QuietKeepsOk(w, w');
      case ReplySeen => QuietKeepsOk(w, w');
    }
  }

  lemma {:induction false} RunKeepsOk(w: Writer, es: seq<Event>)
    requires WriterOk(w) && Run(w, es).Some?
    ensures WriterOk(Run(w, es).value)
    decreases |es|
  {
    if es != [] {
      StepKeepsOk(w, es[0]);
      RunKeepsOk(Step(w, es[0]).value, es[1..]);
    }
  }

  /** In every run, records sealed under the same keys have strictly increasing
      64-bit numbers, retransmissions and refused packets included. */
  lemma NoNumberReuse(es: seq<Event>, i: nat, j: nat)
    requires Run(Start(), es).Some? && i < j < |Run(Start(), es).value.sealed|
    ensures var w := Run(Start(), es).value;
            w.sealed[i].body.Sealed? && w.sealed[j].body.Sealed? && Ascending(w.sealed[i], w.sealed[j])
  {
    StartOk();
    RunKeepsOk(Start(), es);
  }

  /** While the 16-bit epoch does not wrap, the number alone tells two records
      apart. */
  lemma NoWireNumberReuse(es: seq<Event>, i: nat, j: nat)
    requires Run(Start(), es).Some? && i < j < |Run(Start(), es).value.sealed|
    requires Run(Start(), es).value.gen < EPOCHS
    ensures var w := Run(Start(), es).value; w.sealed[i].number != w.sealed[j].number
  {
    hide WriterOkAt, NumbersOk;
    StartOk();
    RunKeepsOk(Start(), es);
    NumbersDiffer(Run(Start(), es).value, i, j);
  }

  lemma NumbersDiffer(w: Writer, i: nat, j: nat)
    requires NumbersOk(w) && w.gen < EPOCHS && i < j < |w.sealed|
    ensures w.sealed[i].number != w.sealed[j].number
  {
    var (a, b) := (w.sealed[i], w.sealed[j]);
    assert NumberOk(w, a) && NumberOk(w, b) && Ascending(a, b);
    var s :| 0 <= s < SEQ48 && NumberedBy(w, a, s);
    var t :| 0 <= t < SEQ48 && NumberedBy(w, b, t);
    if a.number == b.number {
      NumberInjective(Epoch(a.body.gen), s, Epoch(b.body.gen), t);
    }
  }

  /** Numbers fit the eight bytes that go into the nonce. */
  lemma NumberFits(w: Writer, i: nat)
    requires NumbersOk(w) && i < |w.sealed|
    ensures w.sealed[i].number < Limit(8)
  {
    Limits();
    assert NumberOk(w, w.sealed[i]);
    var s :| 0 <= s < SEQ48 && NumberedBy(w, w.sealed[i], s);
  }

  /** In every run, the records accepted since the last rewind tile the flight up
      to the current position. */
  lemma LogTilesFlight(es: seq<Event>)
    requires Run(Start(), es).Some?
    ensures var w := Run(Start(), es).value; Tile(w.flight, 0, 0, w.log) == Some((w.written, w.offset))
  {
    StartOk();
    RunKeepsOk(Start(), es);
  }

  // ---------- What tiling means ----------

  /** The bytes a record contributes to message number s. */
  function Share(rec: Record, s: nat): bytes {
    if rec.typ != HANDSHAKE || rec.body.Garbage? then []
    else
      match ParseFragment(rec.body.plain)
      case Ok((fh, fb), rest) => if fh.seqNum == s then fb else []
      case Fail => []
  }

  /** All bytes sent for message number s, in the order they were sent. */
  function Gather(recs: seq<Record>, s: nat): bytes {
    if recs == [] then [] else Share(recs[0], s) + Gather(recs[1..], s)
  }

  function SeqOf(m: OutMsg): nat
    requires Parsed(m.data, 0).Some?
  {
    Parsed(m.data, 0).value.0.seqNum
  }

  predicate FlightOk(flight: seq<OutMsg>) {
    && (forall i | 0 <= i < |flight| && !flight[i].isCcs :: Parsed(flight[i].data, 0).Some?)
    && (forall i, j | 0 <= i < j < |flight| && !flight[i].isCcs && !flight[j].isCcs ::
          SeqOf(flight[i]) != SeqOf(flight[j]))
  }

  /** How much of message k lies before position (i, off). */
  function Before(flight: seq<OutMsg>, k: nat, i: nat, off: nat): nat
    requires k < |flight| && Parsed(flight[k].data, 0).Some?
  {
    if k < i then |BodyOf(flight[k].data)| else if k == i then off else 0
  }

  /** Records that tile from one position to another carry, for every message,
      exactly the bytes between the two positions. */
  lemma {:induction false} TileGathers(flight: seq<OutMsg>, i: nat, off: nat, recs: seq<Record>, k: nat)
    requires FlightOk(flight) && PosOk(flight, i, off) && k < |flight| && !flight[k].isCcs
    requires Tile(flight, i, off, recs).Some?
    ensures var (j, o) := Tile(flight, i, off, recs).value;
            var body := BodyOf(flight[k].data);
            && PosOk(flight, j, o)
            && Before(flight, k, i, off) <= Before(flight, k, j, o) <= |body|
            && Gather(recs, SeqOf(flight[k])) == body[Before(flight, k, i, off)..Before(flight, k, j, o)]
    decreases |recs|
  {
    if recs != [] {
      FollowsShare(flight, i, off, recs[0], k);
      hide Follows, Parsed, Share, ParseFragment, FlightOk, PosOk;
      var p := Follows(flight, i, off, recs[0]).value;
      TileGathers(flight, p.0, p.1, recs[1..], k);
      var (j, o) := Tile(flight, p.0, p.1, recs[1..]).value;
      JoinSlices(BodyOf(flight[k].data), Before(flight, k, i, off), Before(flight, k, p.0, p.1), Before(flight, k, j, o));
    }
  }

  lemma JoinSlices(s: bytes, a: nat, b: nat, c: nat)
    requires a <= b <= c <= |s|
    ensures s[a..b] + s[b..c] == s[a..c]
  {}

  lemma FollowsShare(flight: seq<OutMsg>, i: nat, off: nat, rec: Record, k: nat)
    requires FlightOk(flight) && PosOk(flight, i, off) && k < |flight| && !flight[k].isCcs
    requires Follows(flight, i, off, rec).Some?
    ensures var (j, o) := Follows(flight, i, off, rec).value;
            var body := BodyOf(flight[k].data);
            && PosOk(flight, j, o)
            && Before(flight, k, i, off) <= Before(flight, k, j, o) <= |body|
            && Share(rec, SeqOf(flight[k])) == body[Before(flight, k, i, off)..Before(flight, k, j, o)]
  {
    hide ParseFragment;
    if !flight[i].isCcs {
      assert Parsed(flight[i].data, 0).Some?;
      ParsedAt(flight[i].data, off);
      if i < k { assert SeqOf(flight[i]) != SeqOf(flight[k]); }
      if k < i { assert SeqOf(flight[k]) != SeqOf(flight[i]); }
    }
  }

  lemma PlacesDiffer(w: Writer, i: nat, j: nat)
    requires TailOk(w) && |w.flight| <= N
    requires i < j < |w.flight| && !w.flight[i].isCcs && !w.flight[j].isCcs
    ensures 0 <= Place(w, i) < Place(w, j) < |w.transcript|
    ensures Place(w, i) % SEQ16 != Place(w, j) % SEQ16
  {
    CountMono(w.flight, i + 1, j);
    CountMono(w.flight, j, |w.flight|);
    assert Count(w.flight, i + 1) == Count(w.flight, i) + 1;
    ModDiffer(Place(w, i), Place(w, j));
  }

  lemma ModDiffer(a: nat, b: nat)
    requires a < b <= a + N
    ensures a % SEQ16 != b % SEQ16
  {}

  lemma ReachableFlightOk(w: Writer)
    requires WriterOk(w)
    ensures FlightOk(w.flight)
  {
    hide Parsed, NumbersOk, Tile, Count, Place;
    forall i | 0 <= i < |w.flight| && !w.flight[i].isCcs ensures Parsed(w.flight[i].data, 0).Some? {
      assert MsgOk(w, w.flight[i]);
    }
    forall i, j | 0 <= i < j < |w.flight| && !w.flight[i].isCcs && !w.flight[j].isCcs
      ensures SeqOf(w.flight[i]) != SeqOf(w.flight[j])
    {
      PlacesDiffer(w, i, j);
      assert IsMessage(w.transcript[Place(w, i)], Place(w, i) % SEQ16);
      assert IsMessage(w.transcript[Place(w, j)], Place(w, j) % SEQ16);
    }
  }

  /** In every run, when a flight has been written to its end, the fragments the
      transport accepted since the last rewind hold each message's body once, in
      order and in full. */
  lemma FlightSentExactly(es: seq<Event>, k: nat)
    requires Run(Start(), es).Some?
    requires var w := Run(Start(), es).value; w.written == |w.flight| && k < |w.flight| && !w.flight[k].isCcs
    ensures var w := Run(Start(), es).value;
            Parsed(w.flight[k].data, 0).Some? && Gather(w.log, SeqOf(w.flight[k])) == BodyOf(w.flight[k].data)
  {
    StartOk();
    RunKeepsOk(Start(), es);
    var w := Run(Start(), es).value;
    ReachableFlightOk(w);
    hide NumbersOk, Tile, Gather, Parsed;
    TileGathers(w.flight, 0, 0, w.log, k);
  }
}
