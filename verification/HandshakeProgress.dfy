/** When a step of the client handshake fails, when it waits and where it goes on
    to; and that a handshake in which nothing goes wrong is completed. */
module HandshakeProgress {
  import opened Bytes
  import opened ClientHandshake
  import opened HandshakeSafety

  // ---------- Messages ----------

  /** The state cannot do without a message. */
  predicate Reads(hs: Hs) {
    match hs.state
    case ReadServerCertificate => hs.neg.cipher.certAuth
    case ReadCertificateStatus => hs.neg.statusExpected
    case ReadCertificateRequest => hs.neg.cipher.certAuth
    case ReadSessionTicket => hs.neg.ticketExpected
    case ReadHelloVerifyRequest => true
    case ReadServerHello => true
    case ReadServerKeyExchange => true
    case ReadServerHelloDone => true
    case ReadServerFinished => true
    case _ => false
  }

  /** The message a state is there for. */
  function Own(s: State): Msg {
    match s
    case ReadHelloVerifyRequest => HelloVerifyRequest
    case ReadServerHello => ServerHello
    case ReadServerCertificate => Certificate
    case ReadCertificateStatus => CertificateStatus
    case ReadServerKeyExchange => ServerKeyExchange
    case ReadCertificateRequest => CertificateRequest
    case ReadServerHelloDone => ServerHelloDone
    case ReadSessionTicket => NewSessionTicket
    case ReadServerFinished => Finished
    case _ => OtherMsg
  }

  /** The state may find message m in place of its own, and leaves it alone. */
  predicate MaySkip(hs: Hs, m: Msg) {
    || hs.state.ReadHelloVerifyRequest? || hs.state.ReadCertificateStatus?
    || (hs.state.ReadServerKeyExchange? && !hs.neg.cipher.needsServerKeyExchange)
    || (hs.state.ReadCertificateRequest? && m == ServerHelloDone)
  }

  predicate OwnCame(hs: Hs, i: Input) { Reads(hs) && i.msg == Some(Own(hs.state)) }

  predicate OtherCame(hs: Hs, i: Input) { Reads(hs) && i.msg.Some? && i.msg != Some(Own(hs.state)) }

  // ---------- What can be wrong ----------

  /** The callback was asked for a certificate and gave the answer n: 0 is an
      error, less says to come again. */
  predicate CertCb(c: Config, hs: Hs) {
    hs.state.SendClientCertificate? && hs.auth.requested && c.hasCertCb && !hs.ech.rejected
  }

  /** The state makes checks of which i.fail tells the outcome. */
  predicate Checks(c: Config, hs: Hs, i: Input) {
    match hs.state
    case StartConnect => true
    case EnterEarlyData => hs.early.offered && !c.isDtls
    case EarlyReverifyServerCertificate => !(c.reverifyOnResume && i.verify.VerifyRetry?)
    case ReadServerHello => OwnCame(hs, i) && (i.version13 ==> i.fail == 1)
    case ReadSessionTicket => OwnCame(hs, i) && (i.emptyTicket ==> i.fail == 1)
    case SendClientCertificate => hs.auth.requested && !(CertCb(c, hs) && i.certCb < 0)
    case SendClientKeyExchange => true
    case SendClientCertificateVerify => hs.auth.requested && hs.auth.hasCert
    case SendClientFinished => true
    case FinishFlight => !hs.session.has
    case ProcessChangeCipherSpec => true
    case FinishClientHandshake => true
    case _ => OwnCame(hs, i)
  }

  /** The certificate is verified here. */
  predicate Verifies(c: Config, hs: Hs) {
    || (hs.state.EarlyReverifyServerCertificate? && c.reverifyOnResume)
    || (hs.state.VerifyServerCertificate? && hs.neg.cipher.certAuth)
    || hs.state.ReverifyServerCertificate?
  }

  /** A ServerHello for TLS 1.2 or below that cannot be: early data was offered, a
      downgrade is signalled, or a session is resumed that was not offered, does not
      fit or was offered under ECH. */
  predicate BadHello(c: Config, hs: Hs, i: Input) {
    hs.state.ReadServerHello? && OwnCame(hs, i) && !i.version13 &&
    (|| hs.early.offered
     || (c.max13 && i.downgraded)
     || (i.echoed && !(hs.session.has && i.resumable && i.emsMatches && !hs.ech.selected && !hs.ech.rejected)))
  }

  /** More bytes follow where a flight must end. */
  predicate Trailing(hs: Hs, i: Input) {
    i.excess && OwnCame(hs, i) && (hs.state.ReadServerHelloDone? || hs.state.ReadServerFinished?)
  }

  /** Something is wrong. */
  predicate Faulty(c: Config, hs: Hs, i: Input) {
    || (OtherCame(hs, i) && !MaySkip(hs, i.msg.value))
    || (Checks(c, hs, i) && i.fail != 0)
    || (Verifies(c, hs) && i.verify.VerifyInvalid?)
    || BadHello(c, hs, i)
    || Trailing(hs, i)
    || (hs.state.ReadServerFinished? && OwnCame(hs, i) && !i.finishedMatches)
    || (CertCb(c, hs) && i.certCb == 0)
    || (hs.state.SendClientCertificateVerify? && Checks(c, hs, i) && i.sign.SignFailure?)
    || (hs.state.Tls13? && i.tls13Wait.Error?)
    || (hs.state.FinishClientHandshake? && hs.ech.rejected)
  }

  /** Nothing is ever passed over: a step fails if and only if something is
      wrong. */
  lemma FailsExactly(c: Config, hs: Hs, i: Input)
    requires hs.state != Done
    ensures Step(c, hs, i).1 == Error <==> Faulty(c, hs, i)
  {
    hide Nearer;
  }

  /** A step that fails has done some of what it was to do, in its order, and of a
      first check that fails nothing at all. */
  lemma FailsOnTheWay(c: Config, hs: Hs, i: Input)
    requires hs.state != Done && Step(c, hs, i).1 == Error
    ensures var log := Step(c, hs, i).0.log;
            && hs.log <= log <= hs.log + News(c, hs, i)
            && (i.fail == 1 ==> log == hs.log)
  {
    hide Nearer;
    Three(hs.log, SentChangeCipherSpec, InstalledWriteKeys, SentClientFinished(hs.session.has));
  }

  // ---------- Waiting ----------

  /** What a step cannot go on without, if anything. */
  function Lacks(c: Config, hs: Hs, i: Input): Option<Wait> {
    if Reads(hs) && i.msg.None? then Some(if hs.state.ReadServerHello? then NeedServerHello else NeedMessage)
    else if Verifies(c, hs) && i.verify.VerifyRetry? then Some(NeedCertificateVerify)
    else if CertCb(c, hs) && i.certCb < 0 then Some(NeedX509Lookup)
    else if hs.state.SendClientCertificateVerify? && hs.auth.requested && hs.auth.hasCert && i.sign.SignRetry? then Some(NeedPrivateKey)
    else if hs.state.Tls13? && i.tls13Wait != Wait.Fine then Some(i.tls13Wait)
    else None
  }

  /** A step that lacks something waits for it and changes nothing, so that it can
      be taken again. */
  lemma WaitsExactly(c: Config, hs: Hs, i: Input)
    requires hs.state != Done && !Faulty(c, hs, i)
    ensures Lacks(c, hs, i).Some? ==> Step(c, hs, i) == (hs, Lacks(c, hs, i).value)
    ensures Lacks(c, hs, i).None? ==> Step(c, hs, i).0.state != hs.state
  {
    hide Nearer;
  }

  // ---------- Going on ----------

  /** The order of a full handshake. */
  function Following(s: State): State {
    match s
    case StartConnect => EnterEarlyData
    case EnterEarlyData => EarlyReverifyServerCertificate
    case EarlyReverifyServerCertificate => ReadServerHello
    case ReadHelloVerifyRequest => ReadServerHello
    case ReadServerHello => ReadServerCertificate
    case Tls13 => FinishClientHandshake
    case ReadServerCertificate => ReadCertificateStatus
    case ReadCertificateStatus => VerifyServerCertificate
    case VerifyServerCertificate => ReadServerKeyExchange
    case ReverifyServerCertificate => ReadSessionTicket
    case ReadServerKeyExchange => ReadCertificateRequest
    case ReadCertificateRequest => ReadServerHelloDone
    case ReadServerHelloDone => SendClientCertificate
    case SendClientCertificate => SendClientKeyExchange
    case SendClientKeyExchange => SendClientCertificateVerify
    case SendClientCertificateVerify => SendClientFinished
    case SendClientFinished => FinishFlight
    case FinishFlight => ReadSessionTicket
    case ReadSessionTicket => ProcessChangeCipherSpec
    case ProcessChangeCipherSpec => ReadServerFinished
    case ReadServerFinished => FinishClientHandshake
    case FinishClientHandshake => Done
    case Done => Done
  }

  /** Where the machine leaves it: without early data, for DTLS, for TLS 1.3 and in
      a resumption. */
  function Next(c: Config, hs: Hs, i: Input): State {
    if hs.state.EnterEarlyData? && c.isDtls then ReadHelloVerifyRequest
    else if hs.state.EnterEarlyData? && !hs.early.offered then ReadServerHello
    else if hs.state.ReadServerHello? && i.version13 then Tls13
    else if hs.state.ReadServerHello? && i.echoed && c.reverifyOnResume && i.cipher.certAuth then ReverifyServerCertificate
    else if hs.state.ReadServerHello? && i.echoed then ReadSessionTicket
    else if hs.state.ReadServerFinished? && hs.session.has then SendClientFinished
    else if hs.state.FinishFlight? && hs.session.has then FinishClientHandshake
    else Following(hs.state)
  }

  /** False start: in a full TLS 1.2 handshake, not in DTLS, with an ECDHE and AEAD
      cipher, with ALPN unless that is waived, and without a rejected ECH. */
  predicate FalseStarts(c: Config, hs: Hs) {
    && hs.state.FinishFlight? && !hs.session.has && c.falseStart && !c.isDtls
    && hs.neg.tls12 && hs.neg.cipher.ecdheAead && (hs.neg.alpn || c.anyAlpn) && !hs.ech.rejected
  }

  /** What the step adds to what was done. */
  function News(c: Config, hs: Hs, i: Input): seq<Act> {
    match hs.state
    case StartConnect => [SentClientHello]
    case EnterEarlyData => if c.isDtls || !hs.early.offered then [] else [SentChangeCipherSpec]
    case EarlyReverifyServerCertificate => [InstalledEarlyKeys]
    case ReadHelloVerifyRequest => if OwnCame(hs, i) then [SentClientHello] else []
    case VerifyServerCertificate => if hs.neg.cipher.certAuth then [VerifiedCertificate] else []
    case ReverifyServerCertificate => [VerifiedCertificate]
    case ReadServerKeyExchange => if OwnCame(hs, i) then [CheckedServerKeyExchange] else []
    case SendClientCertificate => if hs.auth.requested then [SentClientCertificate] else []
    case SendClientKeyExchange => [KeyExchange(hs)]
    case SendClientCertificateVerify => if hs.auth.requested && hs.auth.hasCert then [SentCertificateVerify] else []
    case SendClientFinished => [SentChangeCipherSpec, InstalledWriteKeys, SentClientFinished(hs.session.has)]
    case FinishFlight => if FalseStarts(c, hs) then [ReturnedEarly] else []
    case ProcessChangeCipherSpec => [InstalledReadKeys]
    case ReadServerFinished => [VerifiedServerFinished]
    case FinishClientHandshake => [Completed(hs.neg.tls13)]
    case _ => []
  }

  /** What the driver has to do before the next step. */
  function Then(c: Config, hs: Hs, i: Input): Wait {
    if hs.state.StartConnect? || hs.state.SendClientFinished? || (hs.state.ReadHelloVerifyRequest? && OwnCame(hs, i)) then NeedFlush
    else if hs.state.ReadSessionTicket? then NeedChangeCipherSpec
    else if hs.state.EarlyReverifyServerCertificate? || FalseStarts(c, hs) then EarlyReturn
    else Wait.Fine
  }

  /** Otherwise it goes on, exactly so. */
  lemma GoesOn(c: Config, hs: Hs, i: Input)
    requires hs.state != Done && !Faulty(c, hs, i) && Lacks(c, hs, i).None?
    ensures var (hs', w) := Step(c, hs, i);
            && hs'.state == Next(c, hs, i) && w == Then(c, hs, i)
            && hs'.log == hs.log + News(c, hs, i) && hs'.wait == hs.wait
  {
    hide Step, Next, Then, News;
    GoesTo(c, hs, i);
    Asks(c, hs, i);
    Adds(c, hs, i);
  }

  lemma GoesTo(c: Config, hs: Hs, i: Input)
    requires hs.state != Done && !Faulty(c, hs, i) && Lacks(c, hs, i).None?
    ensures Step(c, hs, i).0.state == Next(c, hs, i)
  {
    hide Step, Next;
    if hs.state.ReadServerHello? { GoesToHello(c, hs, i); }
    else if Left(hs.state) > 11 { GoesToEarly(c, hs, i); }
    else { GoesToLate(c, hs, i); }
  }

  lemma GoesToHello(c: Config, hs: Hs, i: Input)
    requires hs.state.ReadServerHello? && !Faulty(c, hs, i) && Lacks(c, hs, i).None?
    ensures Step(c, hs, i).0.state == Next(c, hs, i)
  {
    hide Nearer;
  }

  lemma GoesToEarly(c: Config, hs: Hs, i: Input)
    requires Left(hs.state) > 11 && !hs.state.ReadServerHello? && !Faulty(c, hs, i) && Lacks(c, hs, i).None?
    ensures Step(c, hs, i).0.state == Next(c, hs, i)
  {
    hide Nearer;
  }

  lemma GoesToLate(c: Config, hs: Hs, i: Input)
    requires 0 < Left(hs.state) <= 11 && !Faulty(c, hs, i) && Lacks(c, hs, i).None?
    ensures Step(c, hs, i).0.state == Next(c, hs, i)
  {
    hide Nearer;
  }

  lemma Asks(c: Config, hs: Hs, i: Input)
    requires hs.state != Done && !Faulty(c, hs, i) && Lacks(c, hs, i).None?
    ensures Step(c, hs, i).1 == Then(c, hs, i) && Step(c, hs, i).0.wait == hs.wait
  {
    hide Nearer;
  }

  lemma Adds(c: Config, hs: Hs, i: Input)
    requires hs.state != Done && !Faulty(c, hs, i) && Lacks(c, hs, i).None?
    ensures Step(c, hs, i).0.log == hs.log + News(c, hs, i)
  {
    hide Nearer;
    Three(hs.log, SentChangeCipherSpec, InstalledWriteKeys, SentClientFinished(hs.session.has));
    assert hs.log + [] == hs.log;
  }

  lemma Three(log: seq<Act>, a: Act, b: Act, c: Act)
    ensures log + [a] + [b] + [c] == log + [a, b, c]
  {}

  /** A session is offered if there is one that can be used; it is what the server
      says it is; one is made in a full handshake and for a new ticket. */
  function SessionAfter(hs: Hs, i: Input): Session {
    match hs.state
    case StartConnect => Session(hs.session.has && i.sessionUsable, false)
    case ReadServerHello => if i.version13 then hs.session else Session(i.echoed, !i.echoed)
    case ReadSessionTicket => Session(hs.session.has, hs.session.making || (hs.neg.ticketExpected && !i.emptyTicket))
    case FinishClientHandshake => Session(hs.session.has, false)
    case _ => hs.session
  }

  /** ECH counts as rejected when the handshake goes on below TLS 1.3. */
  function EchAfter(hs: Hs, i: Input): Ech {
    match hs.state
    case StartConnect => Ech(i.echSelected, false)
    case ReadServerHello => Ech(hs.ech.selected, hs.ech.rejected || (hs.ech.selected && !i.version13))
    case _ => hs.ech
  }

  /** Early data is offered only with a session, above TLS 1.2 and not in DTLS;
      early writes are possible from an early return on. */
  function EarlyAfter(c: Config, hs: Hs, i: Input): Early {
    match hs.state
    case StartConnect => Early(i.earlyOffered && hs.session.has && i.sessionUsable && c.max13 && !c.isDtls, false)
    case EarlyReverifyServerCertificate => Early(hs.early.offered, true)
    case FinishFlight => Early(hs.early.offered, hs.early.canWrite || FalseStarts(c, hs))
    case _ => hs.early
  }

  function NegotiatedAfter(hs: Hs, i: Input): Negotiated {
    match hs.state
    case ReadServerHello =>
      if i.version13 then hs.neg.(tls13 := true)
      else Negotiated(false, i.version12, i.cipher, i.statusExpected, i.ticketExpected, i.alpn)
    case ReadSessionTicket => hs.neg.(ticketExpected := hs.neg.ticketExpected && !i.emptyTicket)
    case _ => hs.neg
  }

  /** A certificate is asked for by the server alone, and none is shown after a
      rejected ECH. */
  function AuthAfter(hs: Hs, i: Input): ClientAuth {
    match hs.state
    case ReadCertificateRequest => ClientAuth(hs.auth.requested || OwnCame(hs, i), hs.auth.hasCert)
    case SendClientCertificate =>
      if hs.auth.requested then ClientAuth(true, i.hasCert && !hs.ech.rejected) else hs.auth
    case _ => hs.auth
  }

  /** And settles just this. */
  lemma Settles(c: Config, hs: Hs, i: Input)
    requires hs.state != Done && !Faulty(c, hs, i) && Lacks(c, hs, i).None?
    ensures var hs' := Step(c, hs, i).0;
            && hs'.session == SessionAfter(hs, i) && hs'.ech == EchAfter(hs, i) && hs'.early == EarlyAfter(c, hs, i)
            && hs'.neg == NegotiatedAfter(hs, i) && hs'.auth == AuthAfter(hs, i)
  {
    SettlesOffer(c, hs, i);
    SettlesAnswer(c, hs, i);
    hide *;
  }

  lemma SettlesOffer(c: Config, hs: Hs, i: Input)
    requires hs.state != Done && !Faulty(c, hs, i) && Lacks(c, hs, i).None?
    ensures var hs' := Step(c, hs, i).0;
            hs'.session == SessionAfter(hs, i) && hs'.ech == EchAfter(hs, i) && hs'.early == EarlyAfter(c, hs, i)
  {
    hide Nearer;
  }

  lemma SettlesAnswer(c: Config, hs: Hs, i: Input)
    requires hs.state != Done && !Faulty(c, hs, i) && Lacks(c, hs, i).None?
    ensures var hs' := Step(c, hs, i).0; hs'.neg == NegotiatedAfter(hs, i) && hs'.auth == AuthAfter(hs, i)
  {
    hide Step, NegotiatedAfter, AuthAfter;
    SettlesNegotiated(c, hs, i);
    SettlesAuth(c, hs, i);
  }

  lemma SettlesNegotiated(c: Config, hs: Hs, i: Input)
    requires hs.state != Done && !Faulty(c, hs, i) && Lacks(c, hs, i).None?
    ensures Step(c, hs, i).0.neg == NegotiatedAfter(hs, i)
  {
    hide Nearer;
  }

  lemma SettlesAuth(c: Config, hs: Hs, i: Input)
    requires hs.state != Done && !Faulty(c, hs, i) && Lacks(c, hs, i).None?
    ensures Step(c, hs, i).0.auth == AuthAfter(hs, i)
  {
    hide Nearer;
  }

  // ---------- The driver ----------

  predicate NeedsRecord(w: Wait) { w in {NeedServerHello, NeedMessage, NeedChangeCipherSpec} }

  /** Waits that only the caller can end; they are over when it calls again. */
  predicate CallersTurn(w: Wait) { w in {NeedX509Lookup, NeedPrivateKey, NeedCertificateVerify, EarlyReturn} }

  /** The machine goes on if and only if what it waited for is there: it waited for
      nothing, the flight is flushed, a record has come.  The caller is told of an
      error, of what the transport answered, of its turn; a connection on which
      nothing came has lost nothing. */
  lemma DriverExact(hs: Hs, io: Io)
    ensures var (hs', ret, go) := Resolve(hs, io);
            && (go <==> hs.wait.Fine? || (hs.wait.NeedFlush? && io.flush > 0) || (NeedsRecord(hs.wait) && io.open.Opened?))
            && hs' == hs.(wait := if CallersTurn(hs.wait) then Wait.Fine else hs.wait,
                          log := hs.log + if go && hs.wait.NeedChangeCipherSpec? then [OpenedChangeCipherSpec] else [])
            && ret == if go || (NeedsRecord(hs.wait) && io.open.Again?) then Running
                      else if hs.wait.NeedFlush? then Returned(io.flush, false)
                      else if NeedsRecord(hs.wait) then Returned(0 - io.open.code, false)
                      else if hs.wait.EarlyReturn? then Returned(1, true)
                      else Returned(-1, false)
  {
    assert hs.log + [] == hs.log;
  }

  /** A round in which the machine goes on ends with its answer: the end of the
      handshake is success, an error is told, anything else is left to the next
      round. */
  lemma RoundExact(c: Config, hs: Hs, io: Io, world: nat -> Input, n: nat)
    ensures var (hs1, ret1, go) := Resolve(hs, io);
            var (hs2, w, n2) := Machine(c, hs1, world, n);
            if !go then Round(c, hs, io, world, n) == (hs1, ret1, n)
            else Round(c, hs, io, world, n) ==
                 (hs2.(wait := w), if w.Fine? then Returned(1, false) else if w.Error? then Returned(-1, false) else Running, n2)
  {
    hide Machine, Resolve;
  }

  // ---------- A handshake in which nothing goes wrong ----------

  /** What may be waited for without something being amiss. */
  predicate Usual(w: Wait) { w in {Wait.Fine, NeedFlush, NeedChangeCipherSpec, EarlyReturn} }

  predicate Smooth(c: Config, hs: Hs, i: Input) { !Faulty(c, hs, i) && Lacks(c, hs, i).None? }

  lemma SmoothNearer(c: Config, hs: Hs, i: Input)
    requires hs.state != Done && Smooth(c, hs, i)
    ensures var (hs', w) := Step(c, hs, i);
            Rank(hs') < Rank(hs) && Usual(w) && hs'.wait == hs.wait && (hs'.state == Done ==> w == Wait.Fine)
  {
    GoesOn(c, hs, i);
    hide Faulty, Lacks, Step, News;
  }

  /** No step of the machine's loop is faulty or lacks anything. */
  predicate SmoothLoop(c: Config, hs: Hs, world: nat -> Input, n: nat)
    decreases Rank(hs)
  {
    hs.state == Done ||
    (Smooth(c, hs, world(n)) &&
     match Step(c, hs, world(n))
     case (hs', w) => w == Wait.Fine && Rank(hs') < Rank(hs) ==> SmoothLoop(c, hs', world, n + 1))
  }

  /** Nor any of the run, whose transport neither refuses nor keeps back
      anything. */
  predicate SmoothRun(c: Config, hs: Hs, ios: seq<Io>, world: nat -> Input, n: nat)
    decreases |ios|
  {
    ios != [] ==>
      && ios[0].flush > 0 && ios[0].open == Opened
      && (Resolve(hs, ios[0]).2 ==> SmoothLoop(c, Resolve(hs, ios[0]).0, world, n))
      && match Round(c, hs, ios[0], world, n)
         case (hs', ret, n') => SmoothRun(c, hs', ios[1..], world, n')
  }

  lemma {:induction false} LoopNears(c: Config, hs: Hs, world: nat -> Input, n: nat)
    requires SmoothLoop(c, hs, world, n)
    ensures var (hs', w, n') := Machine(c, hs, world, n);
            && Usual(w) && (hs'.state == Done <==> w == Wait.Fine)
            && Rank(hs') <= Rank(hs) && (hs.state != Done ==> Rank(hs') < Rank(hs))
    decreases Rank(hs)
  {
    hide Smooth, Step;
    if hs.state != Done {
      SmoothNearer(c, hs, world(n));
      match Step(c, hs, world(n)) {
        case (hs', w) =>
          if w == Wait.Fine { LoopNears(c, hs', world, n + 1); }
          else { hide Rank; }
      }
    }
  }

  /** How many rounds it can take at most. */
  function RoundsLeft(hs: Hs): nat {
    2 * Rank(hs) + if hs.wait == EarlyReturn then 1 else 0
  }

  lemma RoundNears(c: Config, hs: Hs, io: Io, world: nat -> Input, n: nat)
    requires Usual(hs.wait) && io.flush > 0 && io.open == Opened
    requires Resolve(hs, io).2 ==> SmoothLoop(c, Resolve(hs, io).0, world, n)
    ensures var hs' := Round(c, hs, io, world, n).0;
            && Usual(hs'.wait) && (hs.state == Done ==> hs'.state == Done)
            && (hs.state != Done ==> RoundsLeft(hs') < RoundsLeft(hs))
  {
    hide SmoothLoop, Machine;
    var (hs1, ret, go) := Resolve(hs, io);
    assert Rank(hs1) == Rank(hs) && hs1.state == hs.state;
    if go {
      LoopNears(c, hs1, world, n);
      if hs.state == Done { assert Machine(c, hs1, world, n) == (hs1, Wait.Fine, n) by { DoneStays(c, hs1, world, n); } }
    }
  }

  lemma DoneStays(c: Config, hs: Hs, world: nat -> Input, n: nat)
    requires hs.state == Done
    ensures Machine(c, hs, world, n) == (hs, Wait.Fine, n)
  {}

  /** Whatever the server and the configuration: a run in which no step is faulty or
      lacks anything reaches the end. */
  lemma {:induction false} SmoothRunCompletes(c: Config, hs: Hs, ios: seq<Io>, world: nat -> Input, n: nat)
    requires SmoothRun(c, hs, ios, world, n) && Usual(hs.wait) && (hs.state == Done || |ios| >= RoundsLeft(hs))
    ensures Rounds(c, hs, ios, world, n).0.state == Done
    decreases |ios|
  {
    hide Round, Resolve, SmoothLoop;
    if ios != [] {
      RoundNears(c, hs, ios[0], world, n);
      match Round(c, hs, ios[0], world, n) {
        case (hs', ret, n') =>
          SmoothRunCompletes(c, hs', ios[1..], world, n');
      }
    }
  }

  // ---------- And there is such a handshake ----------

  /** The decisions of a world in which no check fails, every message comes and
      nothing has to be waited for. */
  predicate Kind(base: Input) {
    && base.fail == 0 && base.verify.VerifyOk? && base.sign.SignSuccess? && base.certCb > 0
    && !base.excess && base.finishedMatches && base.tls13Wait == Wait.Fine
    && (!base.version13 ==>
          && !base.echSelected && !base.earlyOffered && !base.downgraded
          && (base.echoed ==> base.sessionUsable && base.resumable && base.emsMatches))
  }

  /** To each state the message it is there for. */
  function Told(base: Input, hs: Hs): Input { base.(msg := Some(Own(hs.state))) }

  /** The handshake after n steps, as far as it does not depend on the driver. */
  function Trace(c: Config, hs: Hs, base: Input, n: nat): Hs {
    if n == 0 then hs else Step(c, Trace(c, hs, base, n - 1), Told(base, Trace(c, hs, base, n - 1))).0
  }

  function World(c: Config, hs: Hs, base: Input): nat -> Input {
    (n: nat) => Told(base, Trace(c, hs, base, n))
  }

  /** Nothing in the way of the end: up to the ServerHello, nothing that TLS 1.2
      would stumble over; from then on, what the server said. */
  predicate Calm(hs: Hs, base: Input) {
    && !hs.ech.rejected
    && if Hello(hs.state) then
         && !hs.neg.tls13
         && (!base.version13 ==> !hs.ech.selected && !hs.early.offered && (base.echoed ==> hs.session.has))
       else
         && hs.neg.tls13 == base.version13
         && (!base.version13 ==> hs.session.has == base.echoed && hs.neg.cipher == base.cipher && hs.state != Tls13)
  }

  predicate SameBut(hs: Hs, t: Hs) { hs.(log := t.log, wait := t.wait) == t }

  lemma KindIsSmooth(c: Config, hs: Hs, base: Input)
    requires Kind(base) && Calm(hs, base) && hs.state != Done
    ensures Smooth(c, hs, Told(base, hs))
  {}

  lemma CalmStays(c: Config, hs: Hs, base: Input)
    requires Kind(base) && Calm(hs, base) && hs.state != Done
    ensures Calm(Step(c, hs, Told(base, hs)).0, base)
  {
    KindIsSmooth(c, hs, base);
    GoesOn(c, hs, Told(base, hs));
    Settles(c, hs, Told(base, hs));
    var hs' := Step(c, hs, Told(base, hs)).0;
    hide Step, Kind, Calm;
    if Hello(hs.state) { CalmHello(c, hs, base, hs'); } else { CalmLater(c, hs, base, hs'); }
  }

  lemma CalmHello(c: Config, hs: Hs, base: Input, hs': Hs)
    requires Kind(base) && Calm(hs, base) && Hello(hs.state)
    requires hs'.state == Next(c, hs, Told(base, hs)) && hs'.ech == EchAfter(hs, Told(base, hs))
    requires hs'.session == SessionAfter(hs, Told(base, hs)) && hs'.early == EarlyAfter(c, hs, Told(base, hs))
    requires hs'.neg == NegotiatedAfter(hs, Told(base, hs))
    ensures Calm(hs', base)
  {}

  lemma CalmLater(c: Config, hs: Hs, base: Input, hs': Hs)
    requires Calm(hs, base) && !Hello(hs.state)
    requires hs'.state == Next(c, hs, Told(base, hs)) && hs'.ech == EchAfter(hs, Told(base, hs))
    requires hs'.session == SessionAfter(hs, Told(base, hs))
    requires hs'.neg == NegotiatedAfter(hs, Told(base, hs))
    ensures Calm(hs', base)
  {}

  lemma SameStep(c: Config, hs: Hs, t: Hs, base: Input)
    requires Kind(base) && Calm(hs, base) && SameBut(hs, t) && hs.state != Done
    ensures SameBut(Step(c, hs, Told(base, hs)).0, Step(c, t, Told(base, t)).0)
  {
    KindIsSmooth(c, hs, base);
    GoesOn(c, hs, Told(base, hs));
    Settles(c, hs, Told(base, hs));
    assert Calm(t, base);
    KindIsSmooth(c, t, base);
    GoesOn(c, t, Told(base, t));
    Settles(c, t, Told(base, t));
    hide *;
    SameAfter(c, hs, t, Told(base, t));
    SameTold(hs, t, base);
    AllTheSame(Step(c, hs, Told(base, hs)).0, Step(c, t, Told(base, t)).0);
  }

  lemma SameTold(hs: Hs, t: Hs, base: Input)
    requires SameBut(hs, t)
    ensures Told(base, hs) == Told(base, t)
  {}

  lemma SameAfter(c: Config, hs: Hs, t: Hs, i: Input)
    requires SameBut(hs, t)
    ensures Next(c, hs, i) == Next(c, t, i) && SessionAfter(hs, i) == SessionAfter(t, i) && EchAfter(hs, i) == EchAfter(t, i)
    ensures EarlyAfter(c, hs, i) == EarlyAfter(c, t, i) && NegotiatedAfter(hs, i) == NegotiatedAfter(t, i)
    ensures AuthAfter(hs, i) == AuthAfter(t, i)
  {
    hide NegotiatedAfter, AuthAfter;
    SameAnswer(hs, t, i);
  }

  lemma SameAnswer(hs: Hs, t: Hs, i: Input)
    requires SameBut(hs, t)
    ensures NegotiatedAfter(hs, i) == NegotiatedAfter(t, i) && AuthAfter(hs, i) == AuthAfter(t, i)
  {}

  lemma AllTheSame(hs: Hs, t: Hs)
    requires hs.state == t.state && hs.session == t.session && hs.ech == t.ech && hs.early == t.early
    requires hs.neg == t.neg && hs.auth == t.auth
    ensures SameBut(hs, t)
  {}

  /** The run has come where the trace has. */
  predicate OnTrack(c: Config, start: Hs, base: Input, hs: Hs, n: nat) {
    Calm(hs, base) && (hs.state != Done ==> SameBut(hs, Trace(c, start, base, n)))
  }

  lemma {:induction false} LoopOnTrack(c: Config, start: Hs, base: Input, hs: Hs, n: nat)
    requires Kind(base) && OnTrack(c, start, base, hs, n)
    ensures SmoothLoop(c, hs, World(c, start, base), n)
    ensures var (hs', w, n') := Machine(c, hs, World(c, start, base), n); OnTrack(c, start, base, hs', n')
    decreases Rank(hs)
  {
    hide Calm, Kind, Smooth, Step;
    if hs.state != Done {
      var i := World(c, start, base)(n);
      TrackStep(c, start, base, hs, n);
      SmoothNearer(c, hs, i);
      hide Rank;
      match Step(c, hs, i) {
        case (hs', w) =>
          assert OnTrack(c, start, base, hs', n + 1);
          if w == Wait.Fine { LoopOnTrack(c, start, base, hs', n + 1); }
      }
    }
  }

  lemma TrackStep(c: Config, start: Hs, base: Input, hs: Hs, n: nat)
    requires Kind(base) && OnTrack(c, start, base, hs, n) && hs.state != Done
    ensures var i := World(c, start, base)(n); Smooth(c, hs, i) && OnTrack(c, start, base, Step(c, hs, i).0, n + 1)
  {
    var t := Trace(c, start, base, n);
    assert World(c, start, base)(n) == Told(base, t) == Told(base, hs);
    KindIsSmooth(c, hs, base);
    CalmStays(c, hs, base);
    SameStep(c, hs, t, base);
    hide Calm, Kind, Smooth, Step, Told;
  }

  predicate Lively(ios: seq<Io>) {
    forall k | 0 <= k < |ios| :: ios[k].flush > 0 && ios[k].open == Opened
  }

  lemma {:induction false} RunOnTrack(c: Config, start: Hs, base: Input, hs: Hs, ios: seq<Io>, n: nat)
    requires Kind(base) && OnTrack(c, start, base, hs, n) && Lively(ios)
    ensures SmoothRun(c, hs, ios, World(c, start, base), n)
    ensures var (hs', n') := Rounds(c, hs, ios, World(c, start, base), n); OnTrack(c, start, base, hs', n')
    decreases |ios|
  {
    hide Calm, Kind, SmoothLoop, Machine, World, Trace;
    if ios != [] {
      var (hs1, ret, go) := Resolve(hs, ios[0]);
      TrackWaits(c, start, base, hs, hs1, n);
      if go { LoopOnTrack(c, start, base, hs1, n); }
      match Round(c, hs, ios[0], World(c, start, base), n) {
        case (hs', ret', n') =>
          if go { TrackWaits(c, start, base, Machine(c, hs1, World(c, start, base), n).0, hs', n'); }
          hide Round, Resolve, OnTrack;
          RunOnTrack(c, start, base, hs', ios[1..], n');
      }
    }
  }

  /** What is waited for and the log are no matter. */
  lemma TrackWaits(c: Config, start: Hs, base: Input, hs: Hs, hs': Hs, n: nat)
    requires OnTrack(c, start, base, hs, n) && hs' == hs.(wait := hs'.wait, log := hs'.log)
    ensures OnTrack(c, start, base, hs', n)
  {
    hide Trace;
  }

  /** For every configuration, every cipher and every choice of the server's: if no
      check fails, every message comes and the transport does its part, the client
      gets from the start to the end, by a full handshake, a resumption or TLS 1.3,
      as the server chooses. */
  lemma HandshakeCompletes(c: Config, hasSession: bool, base: Input, ios: seq<Io>)
    requires Kind(base) && (!base.version13 && base.echoed ==> hasSession) && Lively(ios) && |ios| >= 132
    ensures var hs := Rounds(c, Start(hasSession), ios, World(c, Start(hasSession), base), 0).0;
            && hs.state == Done && !hs.ech.rejected && hs.neg.tls13 == base.version13
            && (!base.version13 ==> hs.session.has == base.echoed && hs.neg.cipher == base.cipher)
  {
    var start := Start(hasSession);
    assert OnTrack(c, start, base, start, 0);
    RunOnTrack(c, start, base, start, ios, 0);
    hide SmoothRun, World, Rounds, Kind;
    SmoothRunCompletes(c, start, ios, World(c, start, base), 0);
  }

  // ---------- What is not there from the start ----------

  /** States behind the server's CertificateRequest. */
  predicate PastRequest(s: State) { Left(s) <= 10 }

  /** A client certificate is asked for in a full handshake, by a server that shows
      its own; early writes are possible once early keys are installed or the driver
      has returned early. */
  predicate Earned(hs: Hs) { InFull(hs) && AskedFor(hs) && OnlyIfAsked(hs) && MayWriteEarly(hs) }

  predicate InFull(hs: Hs) { FullOnly(hs.state) ==> !hs.session.has }

  predicate AskedFor(hs: Hs) {
    hs.auth.requested ==> hs.neg.cipher.certAuth && !hs.session.has && PastRequest(hs.state)
  }

  predicate OnlyIfAsked(hs: Hs) { SentClientCertificate in hs.log ==> hs.auth.requested }

  predicate MayWriteEarly(hs: Hs) {
    hs.early.canWrite ==> InstalledEarlyKeys in hs.log || ReturnedEarly in hs.log
  }

  lemma StepEarned(c: Config, hs: Hs, i: Input)
    requires Earned(hs) && hs.state != Done
    ensures Earned(Step(c, hs, i).0)
  {
    hide InFull, AskedFor, OnlyIfAsked, MayWriteEarly, Step;
    StepFull(c, hs, i);
    StepAsked(c, hs, i);
    StepSent(c, hs, i);
    StepEarly(c, hs, i);
  }

  lemma StepFull(c: Config, hs: Hs, i: Input)
    requires InFull(hs) && hs.state != Done
    ensures InFull(Step(c, hs, i).0)
  {
    hide Nearer;
  }

  lemma StepAsked(c: Config, hs: Hs, i: Input)
    requires InFull(hs) && AskedFor(hs) && hs.state != Done
    ensures AskedFor(Step(c, hs, i).0)
  {
    hide Step;
    if PastRequest(hs.state) { AskedAfter(c, hs, i); } else { AskedBefore(c, hs, i); }
  }

  lemma AskedAfter(c: Config, hs: Hs, i: Input)
    requires AskedFor(hs) && PastRequest(hs.state) && hs.state != Done
    ensures AskedFor(Step(c, hs, i).0)
  {
    hide Nearer;
  }

  lemma AskedBefore(c: Config, hs: Hs, i: Input)
    requires InFull(hs) && AskedFor(hs) && !PastRequest(hs.state)
    ensures AskedFor(Step(c, hs, i).0)
  {
    hide Nearer;
  }

  lemma StepSent(c: Config, hs: Hs, i: Input)
    requires OnlyIfAsked(hs) && hs.state != Done
    ensures OnlyIfAsked(Step(c, hs, i).0)
  {
    hide Nearer;
  }

  lemma StepEarly(c: Config, hs: Hs, i: Input)
    requires MayWriteEarly(hs) && hs.state != Done
    ensures MayWriteEarly(Step(c, hs, i).0)
  {
    hide Nearer;
  }

  lemma {:induction false} LoopEarned(c: Config, hs: Hs, world: nat -> Input, n: nat)
    requires Earned(hs)
    ensures Earned(Machine(c, hs, world, n).0)
    decreases Rank(hs)
  {
    hide Step, Earned;
    if hs.state != Done {
      StepEarned(c, hs, world(n));
      match Step(c, hs, world(n)) {
        case (hs', w) => if w == Wait.Fine { LoopEarned(c, hs', world, n + 1); }
      }
    }
  }

  lemma {:induction false} RunEarned(c: Config, hs: Hs, ios: seq<Io>, world: nat -> Input, n: nat)
    requires Earned(hs)
    ensures Earned(Rounds(c, hs, ios, world, n).0)
    decreases |ios|
  {
    hide Machine;
    if ios != [] {
      var (hs1, ret, go) := Resolve(hs, ios[0]);
      assert Earned(hs1);
      LoopEarned(c, hs1, world, n);
      var hs2 := Machine(c, hs1, world, n).0;
      match Round(c, hs, ios[0], world, n) {
        case (hs', ret', n') =>
          assert hs' == hs1 || hs' == hs2.(wait := hs'.wait);
          RunEarned(c, hs', ios[1..], world, n');
      }
    }
  }

  lemma EarnedInRuns(c: Config, hasSession: bool, ios: seq<Io>, world: nat -> Input)
    ensures Earned(Rounds(c, Start(hasSession), ios, world, 0).0)
  {
    RunEarned(c, Start(hasSession), ios, world, 0);
  }
}
