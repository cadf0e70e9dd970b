/** DTLS records and their nonces. */
module DtlsNonces {
  import opened Bytes
  import opened DtlsWire
  import opened DtlsWriter
  import opened DtlsFlight
  import opened Nonce

  /** In every run no two records sealed under the same keys have the same nonce,
      whichever construction the cipher uses. */
  lemma NoNonceReuse(es: seq<Event>, c: Construction, i: nat, j: nat)
    requires ConstructionOk(c)
    requires Run(Start(), es).Some? && i < j < |Run(Start(), es).value.sealed|
    ensures var w := Run(Start(), es).value;
            var (a, b) := (w.sealed[i], w.sealed[j]);
            && a.body.Sealed? && b.body.Sealed?
            && (a.body.gen == b.body.gen ==> NonceOf(c, Put(a.number, SEQ_LEN)) != NonceOf(c, Put(b.number, SEQ_LEN)))
  {
    hide Run, NonceOf, Put, Limit;
    NoNumberReuse(es, i, j);
    var w := RunNumbers(es);
    NumberFits(w, i);
    NumberFits(w, j);
    var (a, b) := (w.sealed[i], w.sealed[j]);
    if a.body.gen == b.body.gen && NonceOf(c, Put(a.number, SEQ_LEN)) == NonceOf(c, Put(b.number, SEQ_LEN)) {
      NumberNonceInjective(c, a.number, b.number);
    }
  }

  lemma RunNumbers(es: seq<Event>) returns (w: Writer)
    requires Run(Start(), es).Some?
    ensures w == Run(Start(), es).value && NumbersOk(w)
  {
    hide NumbersOk, Tile, TailOk, PosOk;
    w := Run(Start(), es).value;
    StartOk();
    RunKeepsOk(Start(), es);
  }
}
