/** From one side's handshake messages to the other side's. */
module TlsRoundTrip {
  import opened Bytes
  import opened TlsWriter
  import opened TlsStream
  import opened TlsFraming
  import TlsReader

  lemma {:induction false} PlainsPrefix(ss: seq<Sealing>, j: nat, typ: byte)
    requires j <= |ss|
    ensures Plains(ss[..j], typ) <= Plains(ss, typ)
    decreases |ss|
  {
    if j == |ss| {
      assert ss[..j] == ss;
    } else {
      assert ss[..|ss| - 1][..j] == ss[..j];
      PlainsPrefix(ss[..|ss| - 1], j, typ);
    }
  }

  /** For every run of the writer that seals without failing and every run of the
      reader over the payloads of its first j handshake records: the messages
      delivered are the first messages sent.  Once every record has arrived,
      nothing is pending and no message is left to take, they are all of them. */
  lemma HandshakeRoundTrip(e: Env, evs: seq<Event>, ms: seq<bytes>,
                           j: nat, es: seq<TlsReader.Event>)
    requires EnvOk(e) && !Run(Start(), e, evs).failed
    requires Messages(evs) == Flatten(ms) && TlsReader.AllMessages(ms)
    requires var w := Run(Start(), e, evs);
             var s := TlsReader.Run(TlsReader.State(TlsReader.Start(), [], []), es);
             j <= |w.sealed| && s.received == Plains(w.sealed[..j], HANDSHAKE)
    ensures var w := Run(Start(), e, evs);
            var s := TlsReader.Run(TlsReader.State(TlsReader.Start(), [], []), es);
            && s.delivered <= ms
            && (j == |w.sealed| && w.hs == [] && TlsReader.ParseMessage(s.r).Need? ==> s.delivered == ms)
  {
    hide TlsReader.Run, Run, Plains, TlsReader.AllMessages;
    HandshakeFraming(e, evs);
    var w := Run(Start(), e, evs);
    PlainsPrefix(w.sealed, j, HANDSHAKE);
    assert Plains(w.sealed[..j], HANDSHAKE) <= Plains(w.sealed, HANDSHAKE) + w.hs;
    TlsReader.DeliversTheStream(es, ms);
    assert w.sealed[..|w.sealed|] == w.sealed;
  }
}
