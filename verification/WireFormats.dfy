/** The bytes on the wire, one by one: headers, extensions and hellos as the
    standards number them, not as the builder happens to put them together. */
module WireFormats {
  import opened Bytes
  import opened Reassembly
  import opened DtlsWire
  import opened Extensions
  import HelloWriter
  import EchHello
  import TlsReader

  // ---------- Handshake messages ----------

  /** The twelve bytes of a fragment's header (section 4.2.2 of RFC 6347): type,
      length, message number, fragment offset and fragment length. */
  lemma FragmentBytes(h: Header, body: bytes)
    requires FitsHeader(h)
    ensures EncodeFragment(h, body) ==
            [h.typ, h.msgLen / 0x1_0000, h.msgLen / 0x100 % 0x100, h.msgLen % 0x100,
             h.seqNum / 0x100, h.seqNum % 0x100,
             h.fragOff / 0x1_0000, h.fragOff / 0x100 % 0x100, h.fragOff % 0x100,
             h.fragLen / 0x1_0000, h.fragLen / 0x100 % 0x100, h.fragLen % 0x100] + body
  {
    Limits();
    ThreeDigits(h.msgLen);
    TwoDigits(h.seqNum);
    ThreeDigits(h.fragOff);
    ThreeDigits(h.fragLen);
    hide Put, Limit;
  }

  /** A message as it is filed and handed on: its header is that of one fragment
      that is the whole. */
  lemma WholeBytes(typ: byte, seqNum: nat, len: nat)
    requires seqNum < 0x1_0000 && len < 0x100_0000
    ensures WholeHeader(typ, seqNum, len) ==
            [typ, len / 0x1_0000, len / 0x100 % 0x100, len % 0x100, seqNum / 0x100, seqNum % 0x100,
             0, 0, 0, len / 0x1_0000, len / 0x100 % 0x100, len % 0x100]
  {
    ThreeDigits(len);
    TwoDigits(seqNum);
    ThreeDigits(0);
    hide Put;
  }

  /** Over TLS a message is its type, its length in three bytes and its body. */
  lemma MessageBytes(typ: byte, body: bytes)
    requires |body| < 0x100_0000
    ensures var n := |body|; TlsReader.Message(typ, body) == [typ, n / 0x1_0000, n / 0x100 % 0x100, n % 0x100] + body
  {
    ThreeDigits(|body|);
    hide Put;
  }

  /** And so it is read: with all bytes there, the message, and otherwise how many
      there must be. */
  lemma MessageRead(held: bytes, hasMessage: bool)
    ensures var p := TlsReader.ParseMessage(TlsReader.Reader(Some(held), hasMessage));
            if |held| < 4 then p == TlsReader.Need(4)
            else
              var n := Number3(held[1], held[2], held[3]);
              p == if |held| < 4 + n then TlsReader.Need(4 + n)
                   else TlsReader.Whole(held[0], held[4..4 + n], held[..4 + n])
  {
    if |held| >= 4 {
      var n := Number3(held[1], held[2], held[3]);
      Quotients(held[1], held[2], held[3]);
      ThreeDigits(n);
      var rest := held[4..];
      assert held == [held[0]] + (Put(n, 3) + rest);
      Limits();
      TlsReader.ParsePrefix(held, held[0], n, rest);
      assert TlsReader.ParseMessage(TlsReader.Reader(Some(held), hasMessage))
          == TlsReader.ParseMessage(TlsReader.Reader(Some(held), false));
      if |rest| >= n { assert rest[..n] == held[4..4 + n]; }
    } else if |held| > 0 {
      assert |held[1..]| < 3;
    }
  }

  /** The number three bytes stand for. */
  function Number3(a: nat, b: nat, c: nat): nat { 0x1_0000 * a + 0x100 * b + c }

  lemma Quotients(a: byte, b: byte, c: byte)
    ensures var n := Number3(a, b, c);
            n / 0x1_0000 == a && n / 0x100 % 0x100 == b && n % 0x100 == c && n < 0x100_0000
  {
    var n := Number3(a, b, c);
    assert n % 0x100 == c;
    assert n / 0x100 == 0x100 * a + b;
    assert n / 0x1_0000 == a;
  }

  // ---------- Hellos ----------

  lemma PrefixOne(body: bytes)
    requires |body| < 0x100
    ensures PutPrefixed(body, 1) == [|body|] + body
  {}

  lemma PrefixTwo(body: bytes)
    requires |body| < 0x1_0000
    ensures PutPrefixed(body, 2) == [|body| / 0x100, |body| % 0x100] + body
  {
    TwoDigits(|body|);
  }

  /** An extension is its type and its length in two bytes each, and its body. */
  lemma ExtensionBytes(x: Ext)
    requires |x.body| < 0x1_0000
    ensures EncodeExt(x) == [x.typ / 0x100, x.typ % 0x100, |x.body| / 0x100, |x.body| % 0x100] + x.body
  {
    TwoDigits(x.typ);
    PrefixTwo(x.body);
    hide Put, PutPrefixed;
  }

  /** A ClientHello is its version, random, session ID, cipher suites, compression
      methods and extensions, the lengths before the last four taking one, two, one
      and two bytes. */
  lemma HelloBytes(h: EchHello.Hello)
    requires |h.sessionId| < 0x100 && |h.ciphers| < 0x1_0000 && |h.compression| < 0x100 && |h.exts| < 0x1_0000
    ensures EchHello.WriteHello(h) ==
            [h.version / 0x100, h.version % 0x100] + h.random
            + [|h.sessionId|] + h.sessionId
            + [|h.ciphers| / 0x100, |h.ciphers| % 0x100] + h.ciphers
            + [|h.compression|] + h.compression
            + [|h.exts| / 0x100, |h.exts| % 0x100] + h.exts
  {
    TwoDigits(h.version);
    PrefixOne(h.sessionId);
    PrefixTwo(h.ciphers);
    PrefixOne(h.compression);
    PrefixTwo(h.exts);
    hide Put, PutPrefixed;
    Flat([h.version / 0x100, h.version % 0x100], h.random, [|h.sessionId|], h.sessionId,
         [|h.ciphers| / 0x100, |h.ciphers| % 0x100], h.ciphers, [|h.compression|], h.compression,
         [|h.exts| / 0x100, |h.exts| % 0x100], h.exts);
  }

  lemma Flat(a: bytes, b: bytes, c: bytes, d: bytes, e: bytes, f: bytes, g: bytes, h: bytes, i: bytes, j: bytes)
    ensures a + (b + (c + d + (e + f + (g + h)))) + (i + j) == a + b + c + d + e + f + g + h + i + j
  {}

  /** As a handshake message it is of type 1. */
  lemma HelloMessageBytes(h: EchHello.Hello)
    ensures EchHello.HelloMessage(h) == TlsReader.Message(1, EchHello.WriteHello(h))
  {}

  /** The order of a hello's extensions: GREASE without a body, the table's, GREASE
      with one zero byte, padding (type 21), and last of all the pre_shared_key
      (type 41).  Inside, what repeats the outer hello comes after what does not;
      encoded, a list of its types under 0xfd00 stands in its place. */
  lemma HelloLists(t: seq<HelloWriter.Entry>, order: seq<nat>, g1: u16, g2: u16, padding: nat, psk: bytes)
    requires HelloWriter.IsOrder(order, |t|) && padding > 0
    ensures var (n, g) := (|t|, Some((g1, g2)));
            var repeats := [Ext(g1, [])] + HelloWriter.CompressedOf(t, order, n) + [Ext(g2, [0])];
            && HelloWriter.OuterExts(t, order, g, padding, Some(psk)) ==
               [Ext(g1, [])] + HelloWriter.OuterOf(t, order, n) + [Ext(g2, [0])] + [Ext(21, seq(padding, _ => 0))] + [Ext(41, psk)]
            && HelloWriter.RealExts(t, order, g, Some(psk)) == HelloWriter.PlainOf(t, order, n) + repeats + [Ext(41, psk)]
            && HelloWriter.EncodedExts(t, order, g, Some(psk)) ==
               HelloWriter.PlainOf(t, order, n)
               + [Ext(0xfd00, PutPrefixed(HelloWriter.TypeList(Types(repeats)), 1))] + [Ext(41, psk)]
    ensures HelloWriter.OuterExts(t, order, None, 0, None) == HelloWriter.OuterOf(t, order, |t|)
  {
    hide HelloWriter.OuterOf, HelloWriter.PlainOf, HelloWriter.CompressedOf, HelloWriter.IsOrder, HelloWriter.TypeList, Types, PutPrefixed;
    HelloWriter.NoMore(HelloWriter.OuterOf(t, order, |t|));
    assert [] + HelloWriter.OuterOf(t, order, |t|) == HelloWriter.OuterOf(t, order, |t|);
  }

  /** When the last entry of the table wrote an extension, or GREASE follows it, a
      padded hello without a pre_shared_key does not end with an empty one. */
  lemma LastNotEmpty(t: seq<HelloWriter.Entry>, order: seq<nat>, g: HelloWriter.Greases, header: nat)
    requires HelloWriter.IsOrder(order, |t|)
    requires g.Some? || (|t| > 0 && t[order[|t| - 1]].outer.Some?)
    ensures var xs := HelloWriter.OuterExts(t, order, g, HelloWriter.PaddingOf(t, order, g, None, header, true), None);
            xs != [] && xs[|xs| - 1].body != []
  {
    var before := HelloWriter.GreaseFirst(g) + HelloWriter.OuterOf(t, order, |t|) + HelloWriter.GreaseLast(g);
    HelloWriter.PaddingAvoidsRange(header + 6 + |Encode(before)|, HelloWriter.LastEmpty(t, order, g));
    hide Encode, HelloWriter.OuterPadding;
    if g.None? { HelloWriter.TableGrows(t, order, |t| - 1); }
    hide HelloWriter.OuterOf, HelloWriter.IsOrder;
    assert before[|before| - 1] == if g.Some? then Ext(g.value.1, [0]) else Ext(t[order[|t| - 1]].typ, t[order[|t| - 1]].outer.value);
    PaddedEnd(before, HelloWriter.PaddingOf(t, order, g, None, header, true));
  }

  lemma PaddedEnd(before: seq<Ext>, padding: nat)
    requires before != [] && (before[|before| - 1].body != [] || padding > 0)
    ensures var xs := before + HelloWriter.Pad(padding) + HelloWriter.Psk(None); xs != [] && xs[|xs| - 1].body != []
  {}

  /** A whole hello message that is padded is never 256 to 511 bytes long, whatever is
      in it: four bytes of message header, the hello up to its extensions, their
      length and they themselves. */
  lemma HelloAvoidsRange(t: seq<HelloWriter.Entry>, order: seq<nat>, g: HelloWriter.Greases, psk: Option<bytes>, header: nat)
    requires HelloWriter.IsOrder(order, |t|)
    ensures var xs := HelloWriter.OuterExts(t, order, g, HelloWriter.PaddingOf(t, order, g, psk, header, true), psk);
            !(256 <= 4 + header + 2 + |Encode(xs)| <= 511)
  {
    var before := HelloWriter.GreaseFirst(g) + HelloWriter.OuterOf(t, order, |t|) + HelloWriter.GreaseLast(g);
    var padding := HelloWriter.PaddingOf(t, order, g, psk, header, true);
    var last := HelloWriter.LastEmpty(t, order, g) && psk.None?;
    HelloWriter.PaddingAvoidsRange(header + 6 + |Encode(before)| + HelloWriter.PskLength(psk), last);
    HelloWriter.PadEnds(before, padding, psk);
    HelloWriter.FourBytes(Ext(21, HelloWriter.ZeroBytes(padding)));
    if psk.Some? { HelloWriter.FourBytes(Ext(41, psk.value)); }
    hide Encode, EncodeExt, HelloWriter.OuterPadding, HelloWriter.OuterOf, HelloWriter.IsOrder, HelloWriter.LastEmpty;
  }
}
