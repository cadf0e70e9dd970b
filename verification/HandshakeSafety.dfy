/** What every run of the client handshake guarantees. */
module HandshakeSafety {
  import opened Bytes
  import opened ClientHandshake

  predicate FinishedSent(log: seq<Act>) {
    SentClientFinished(true) in log || SentClientFinished(false) in log
  }

  predicate EndsWith(log: seq<Act>, a: Act) {
    log != [] && log[|log| - 1] == a
  }

  /** When an act may follow what came before it. */
  predicate Allowed(before: seq<Act>, a: Act) {
    match a
    case InstalledReadKeys => EndsWith(before, OpenedChangeCipherSpec) && InstalledReadKeys !in before
    case VerifiedServerFinished => InstalledReadKeys in before && VerifiedServerFinished !in before
    case InstalledWriteKeys => EndsWith(before, SentChangeCipherSpec) && InstalledWriteKeys !in before
    case SentClientFinished(resumed) =>
      && EndsWith(before, InstalledWriteKeys) && !FinishedSent(before)
      && (resumed ==> VerifiedServerFinished in before)
    case SentClientKeyExchange(certificate, parameters) =>
      && (certificate ==> VerifiedCertificate in before)
      && (parameters ==> CheckedServerKeyExchange in before)
    case ReturnedEarly => FinishedSent(before)
    case Completed(tls13) => tls13 || (VerifiedServerFinished in before && FinishedSent(before))
    case _ => true
  }

  predicate OrderOk(log: seq<Act>) {
    forall i | 0 <= i < |log| :: Allowed(log[..i], log[i])
  }

  lemma OrderSnoc(log: seq<Act>, a: Act)
    requires OrderOk(log) && Allowed(log, a)
    ensures OrderOk(log + [a])
  {
    var l := log + [a];
    forall i | 0 <= i < |l| ensures Allowed(l[..i], l[i]) {
      assert l[..i] == log[..i];
      assert log[..|log|] == log;
    }
  }

  // ---------- Where the handshake is ----------

  /** Which of the four decisive acts have happened. */
  predicate Acts(log: seq<Act>, readKeys: bool, serverFinished: bool, writeKeys: bool, clientFinished: bool) {
    && (InstalledReadKeys in log) == readKeys
    && (VerifiedServerFinished in log) == serverFinished
    && (InstalledWriteKeys in log) == writeKeys
    && FinishedSent(log) == clientFinished
  }

  predicate Verified(log: seq<Act>) { VerifiedCertificate in log }

  predicate Checked(log: seq<Act>) { CheckedServerKeyExchange in log }

  /** Acts that decide nothing and need nothing before them. */
  predicate Free(a: Act) {
    || a.SentClientHello? || a.InstalledEarlyKeys? || a.OpenedChangeCipherSpec? || a.SentChangeCipherSpec?
    || a.VerifiedCertificate? || a.SentClientCertificate? || a.SentCertificateVerify? || a == Completed(true)
    || a == CheckedServerKeyExchange
  }

  lemma FreeAct(log: seq<Act>, a: Act, r: bool, s: bool, w: bool, c: bool)
    requires OrderOk(log) && Free(a) && Acts(log, r, s, w, c)
    ensures OrderOk(log + [a]) && Acts(log + [a], r, s, w, c)
    ensures Verified(log + [a]) == (Verified(log) || a == VerifiedCertificate)
    ensures Checked(log + [a]) == (Checked(log) || a == CheckedServerKeyExchange)
  {
    OrderSnoc(log, a);
  }

  lemma KeyExchangeAct(log: seq<Act>, cert: bool, params: bool)
    requires OrderOk(log) && (cert ==> Verified(log)) && (params ==> Checked(log)) && Acts(log, false, false, false, false)
    ensures OrderOk(log + [Act.SentClientKeyExchange(cert, params)])
    ensures Acts(log + [Act.SentClientKeyExchange(cert, params)], false, false, false, false)
  {
    OrderSnoc(log, Act.SentClientKeyExchange(cert, params));
  }

  lemma ReturnedEarlyAct(log: seq<Act>)
    requires OrderOk(log) && Acts(log, false, false, true, true)
    ensures OrderOk(log + [ReturnedEarly]) && Acts(log + [ReturnedEarly], false, false, true, true)
  {
    OrderSnoc(log, ReturnedEarly);
  }

  lemma CompletedAct(log: seq<Act>)
    requires OrderOk(log) && Acts(log, true, true, true, true)
    ensures OrderOk(log + [Completed(false)]) && Acts(log + [Completed(false)], true, true, true, true)
  {
    OrderSnoc(log, Completed(false));
  }

  lemma ReadKeysAct(log: seq<Act>, w: bool, c: bool)
    requires OrderOk(log) && Acts(log, false, false, w, c) && EndsWith(log, OpenedChangeCipherSpec)
    ensures OrderOk(log + [InstalledReadKeys]) && Acts(log + [InstalledReadKeys], true, false, w, c)
  {
    OrderSnoc(log, InstalledReadKeys);
  }

  lemma ServerFinishedAct(log: seq<Act>, w: bool, c: bool)
    requires OrderOk(log) && Acts(log, true, false, w, c)
    ensures OrderOk(log + [VerifiedServerFinished]) && Acts(log + [VerifiedServerFinished], true, true, w, c)
  {
    OrderSnoc(log, VerifiedServerFinished);
  }

  lemma WriteKeysAct(log: seq<Act>, resumed: bool)
    requires OrderOk(log) && EndsWith(log, SentChangeCipherSpec) && Acts(log, resumed, resumed, false, false)
    ensures var log' := log + [InstalledWriteKeys];
            OrderOk(log') && EndsWith(log', InstalledWriteKeys) && Acts(log', resumed, resumed, true, false)
  {
    OrderSnoc(log, InstalledWriteKeys);
  }

  lemma ClientFinishedAct(log: seq<Act>, resumed: bool)
    requires OrderOk(log) && EndsWith(log, InstalledWriteKeys) && Acts(log, resumed, resumed, true, false)
    ensures OrderOk(log + [SentClientFinished(resumed)])
    ensures Acts(log + [SentClientFinished(resumed)], resumed, resumed, true, true)
  {
    OrderSnoc(log, SentClientFinished(resumed));
  }

  lemma EndOf(log: seq<Act>, a: Act)
    ensures EndsWith(log + [a], a)
  {}

  /** States only a full handshake visits. */
  predicate FullOnly(s: State) {
    || s.ReadServerCertificate? || s.ReadCertificateStatus? || s.VerifyServerCertificate?
    || s.ReadServerKeyExchange? || s.ReadCertificateRequest? || s.ReadServerHelloDone?
    || s.SendClientCertificate? || s.SendClientKeyExchange? || s.SendClientCertificateVerify?
  }

  /** States up to the ServerHello. */
  predicate Hello(s: State) {
    || s.StartConnect? || s.EnterEarlyData? || s.EarlyReverifyServerCertificate?
    || s.ReadHelloVerifyRequest? || s.ReadServerHello?
  }

  /** States in which a server that must show a certificate has had it verified. */
  predicate NeedsVerified(s: State) {
    || s.ReadServerKeyExchange? || s.ReadCertificateRequest? || s.ReadServerHelloDone?
    || s.SendClientCertificate? || s.SendClientKeyExchange?
  }

  /** And states in which its key exchange parameters, if it must send some, were
      checked. */
  predicate NeedsChecked(s: State) {
    || s.ReadCertificateRequest? || s.ReadServerHelloDone? || s.SendClientCertificate? || s.SendClientKeyExchange?
  }

  predicate Stage12(s: State, resumed: bool, log: seq<Act>) {
    && !s.Tls13?
    && (FullOnly(s) ==> !resumed)
    && (s.ReverifyServerCertificate? ==> resumed)
    && (Hello(s) || FullOnly(s) || s.ReverifyServerCertificate? ==> Acts(log, false, false, false, false))
    && (s.SendClientFinished? ==> Acts(log, resumed, resumed, false, false))
    && (s.FinishFlight? ==> Acts(log, resumed, resumed, true, true))
    && (s.ReadSessionTicket? || s.ProcessChangeCipherSpec? ==> Acts(log, false, false, !resumed, !resumed))
    && (s.ReadServerFinished? ==> Acts(log, true, false, !resumed, !resumed))
    && (s.FinishClientHandshake? || s.Done? ==> Acts(log, true, true, true, true))
    && (s.Done? ==> Completed(false) in log)
  }

  predicate Stage(hs: Hs) {
    && (if hs.neg.tls13 then hs.state == Tls13 || hs.state == FinishClientHandshake || hs.state == Done
        else Stage12(hs.state, hs.session.has, hs.log))
    && (hs.ech.rejected ==> !Hello(hs.state) && hs.state != Done && !hs.neg.tls13)
    && (hs.neg.cipher.certAuth && NeedsVerified(hs.state) && !hs.neg.tls13 ==> Verified(hs.log))
    && (hs.neg.cipher.needsServerKeyExchange && NeedsChecked(hs.state) && !hs.neg.tls13 ==> Checked(hs.log))
  }

  /** Ready for a step: read keys are changed only with a ChangeCipherSpec just
      opened. */
  predicate Ready(hs: Hs) {
    && OrderOk(hs.log) && Stage(hs)
    && (hs.state == ProcessChangeCipherSpec ==> EndsWith(hs.log, OpenedChangeCipherSpec))
  }

  predicate After(hs: Hs, w: Wait) {
    && OrderOk(hs.log)
    && (hs.state == Done ==> w == Wait.Fine)
    && (w != Error ==>
          && Stage(hs)
          && (hs.state == ProcessChangeCipherSpec ==> w == NeedChangeCipherSpec)
          && (w == EarlyReturn ==> !hs.ech.rejected))
  }

  lemma CompletedIn(log: seq<Act>)
    ensures Completed(false) in log + [Completed(false)]
  {}

  lemma CompletedTls13(log: seq<Act>)
    requires OrderOk(log)
    ensures OrderOk(log + [Completed(true)])
  {
    OrderSnoc(log, Completed(true));
  }

  lemma StartConnectAfter(c: Config, hs: Hs, i: Input)
    requires Ready(hs) && hs.state == StartConnect
    ensures var (hs', w) := DoStartConnect(c, hs, i); After(hs', w)
  {
    hide OrderOk, Acts, Verified, Checked, EndsWith, Nearer;
    FreeAct(hs.log, SentClientHello, false, false, false, false);
  }

  lemma EnterEarlyDataAfter(c: Config, hs: Hs, i: Input)
    requires Ready(hs) && hs.state == EnterEarlyData
    ensures var (hs', w) := DoEnterEarlyData(c, hs, i); After(hs', w)
  {
    hide OrderOk, Acts, Verified, Checked, EndsWith, Nearer;
    FreeAct(hs.log, SentChangeCipherSpec, false, false, false, false);
  }

  lemma EarlyReverifyAfter(c: Config, hs: Hs, i: Input)
    requires Ready(hs) && hs.state == EarlyReverifyServerCertificate
    ensures var (hs', w) := DoEarlyReverify(c, hs, i); After(hs', w)
  {
    hide OrderOk, Acts, Verified, Checked, EndsWith, Nearer;
    FreeAct(hs.log, InstalledEarlyKeys, false, false, false, false);
  }

  lemma HelloVerifyRequestAfter(hs: Hs, i: Input)
    requires Ready(hs) && hs.state == ReadHelloVerifyRequest
    ensures var (hs', w) := DoReadHelloVerifyRequest(hs, i); After(hs', w)
  {
    hide OrderOk, Acts, Verified, Checked, EndsWith, Nearer;
    FreeAct(hs.log, SentClientHello, false, false, false, false);
  }

  lemma ServerHelloAfter(c: Config, hs: Hs, i: Input)
    requires Ready(hs) && hs.state == ReadServerHello
    ensures var (hs', w) := DoReadServerHello(c, hs, i); After(hs', w)
  {
    hide OrderOk, Acts, Verified, Checked, EndsWith, Nearer;
  }

  lemma CertificateAfter(hs: Hs, i: Input)
    requires Ready(hs)
    ensures hs.state == ReadServerCertificate ==> var (hs', w) := DoReadServerCertificate(hs, i); After(hs', w)
    ensures hs.state == ReadCertificateStatus ==> var (hs', w) := DoReadCertificateStatus(hs, i); After(hs', w)
  {
    hide OrderOk, Acts, Verified, Checked, EndsWith, Nearer;
  }

  lemma VerifyAfter(hs: Hs, i: Input)
    requires Ready(hs) && hs.state == VerifyServerCertificate
    ensures var (hs', w) := DoVerifyServerCertificate(hs, i); After(hs', w)
  {
    hide OrderOk, Acts, Verified, Checked, EndsWith, Nearer;
    FreeAct(hs.log, VerifiedCertificate, false, false, false, false);
  }

  lemma ReverifyAfter(hs: Hs, i: Input)
    requires Ready(hs) && hs.state == ReverifyServerCertificate
    ensures var (hs', w) := DoReverifyServerCertificate(hs, i); After(hs', w)
  {
    hide OrderOk, Acts, Verified, Checked, EndsWith, Nearer;
    FreeAct(hs.log, VerifiedCertificate, false, false, false, false);
  }

  lemma ServerFlightAfter(hs: Hs, i: Input)
    requires Ready(hs)
    ensures hs.state == ReadServerKeyExchange ==> var (hs', w) := DoReadServerKeyExchange(hs, i); After(hs', w)
    ensures hs.state == ReadCertificateRequest ==> var (hs', w) := DoReadCertificateRequest(hs, i); After(hs', w)
    ensures hs.state == ReadServerHelloDone ==> var (hs', w) := DoReadServerHelloDone(hs, i); After(hs', w)
  {
    hide OrderOk, Acts, Verified, Checked, EndsWith, Nearer;
    if hs.state == ReadServerKeyExchange { FreeAct(hs.log, CheckedServerKeyExchange, false, false, false, false); }
  }

  lemma ClientCertificateAfter(c: Config, hs: Hs, i: Input)
    requires Ready(hs) && hs.state == SendClientCertificate
    ensures var (hs', w) := DoSendClientCertificate(c, hs, i); After(hs', w)
  {
    hide OrderOk, Acts, Verified, Checked, EndsWith, Nearer;
    FreeAct(hs.log, SentClientCertificate, false, false, false, false);
  }

  lemma KeyExchangeAfter(hs: Hs, i: Input)
    requires Ready(hs) && hs.state == SendClientKeyExchange
    ensures var (hs', w) := DoSendClientKeyExchange(hs, i); After(hs', w)
  {
    hide OrderOk, Acts, Verified, Checked, EndsWith, Nearer;
    KeyExchangeAct(hs.log, hs.neg.cipher.certAuth, hs.neg.cipher.needsServerKeyExchange);
  }

  lemma CertificateVerifyAfter(hs: Hs, i: Input)
    requires Ready(hs) && hs.state == SendClientCertificateVerify
    ensures var (hs', w) := DoSendClientCertificateVerify(hs, i); After(hs', w)
  {
    hide OrderOk, Acts, Verified, Checked, EndsWith, Nearer;
    FreeAct(hs.log, SentCertificateVerify, false, false, false, false);
  }

  /** ChangeCipherSpec, the new keys, and under them the client's Finished. */
  lemma FinishedLogs(log: seq<Act>, resumed: bool)
    requires OrderOk(log) && Acts(log, resumed, resumed, false, false)
    ensures var log1 := log + [SentChangeCipherSpec];
            var log2 := log1 + [InstalledWriteKeys];
            var log3 := log2 + [SentClientFinished(resumed)];
            OrderOk(log1) && OrderOk(log2) && OrderOk(log3) && Acts(log3, resumed, resumed, true, true)
  {
    hide OrderOk, Acts, Verified, Checked, EndsWith;
    FreeAct(log, SentChangeCipherSpec, resumed, resumed, false, false);
    EndOf(log, SentChangeCipherSpec);
    WriteKeysAct(log + [SentChangeCipherSpec], resumed);
    ClientFinishedAct(log + [SentChangeCipherSpec] + [InstalledWriteKeys], resumed);
  }

  lemma FinishedStage(hs: Hs, log: seq<Act>)
    requires Ready(hs) && hs.state == SendClientFinished && Acts(log, hs.session.has, hs.session.has, true, true)
    ensures Stage(hs.(state := FinishFlight, log := log))
  {
    hide OrderOk, Acts, Verified, Checked, EndsWith;
  }

  lemma FinishedReady(hs: Hs)
    requires Ready(hs) && hs.state == SendClientFinished
    ensures OrderOk(hs.log) && Acts(hs.log, hs.session.has, hs.session.has, false, false)
  {
    hide OrderOk, Acts, Verified, Checked, EndsWith;
  }

  lemma FinishedAfter(hs: Hs, i: Input)
    requires Ready(hs) && hs.state == SendClientFinished
    ensures var (hs', w) := DoSendClientFinished(hs, i); After(hs', w)
  {
    hide Ready, Stage, OrderOk, Acts, Nearer;
    FinishedReady(hs);
    FinishedLogs(hs.log, hs.session.has);
    FinishedStage(hs, hs.log + [SentChangeCipherSpec] + [InstalledWriteKeys] + [SentClientFinished(hs.session.has)]);
  }

  lemma FinishFlightAfter(c: Config, hs: Hs, i: Input)
    requires Ready(hs) && hs.state == FinishFlight
    ensures var (hs', w) := DoFinishFlight(c, hs, i); After(hs', w)
  {
    hide OrderOk, Acts, Verified, Checked, EndsWith, Nearer;
    if !hs.session.has { ReturnedEarlyAct(hs.log); }
  }

  lemma TicketAfter(hs: Hs, i: Input)
    requires Ready(hs) && hs.state == ReadSessionTicket
    ensures var (hs', w) := DoReadSessionTicket(hs, i); After(hs', w)
  {
    hide OrderOk, Acts, Verified, Checked, EndsWith, Nearer;
  }

  lemma ReadKeysAfter(hs: Hs, i: Input)
    requires Ready(hs) && hs.state == ProcessChangeCipherSpec
    ensures var (hs', w) := DoProcessChangeCipherSpec(hs, i); After(hs', w)
  {
    hide OrderOk, Acts, Verified, Checked, EndsWith, Nearer;
    ReadKeysAct(hs.log, !hs.session.has, !hs.session.has);
  }

  lemma ServerFinishedAfter(hs: Hs, i: Input)
    requires Ready(hs) && hs.state == ReadServerFinished
    ensures var (hs', w) := DoReadServerFinished(hs, i); After(hs', w)
  {
    hide OrderOk, Acts, Verified, Checked, EndsWith, Nearer;
    ServerFinishedAct(hs.log, !hs.session.has, !hs.session.has);
  }

  lemma EndAfter(hs: Hs, i: Input)
    requires Ready(hs) && hs.state == FinishClientHandshake
    ensures var (hs', w) := DoFinishClientHandshake(hs, i); After(hs', w)
  {
    hide OrderOk, Acts, Verified, Checked, EndsWith, Nearer;
    if hs.neg.tls13 {
      CompletedTls13(hs.log);
    } else {
      CompletedAct(hs.log);
      CompletedIn(hs.log);
    }
  }

  lemma Tls13After(hs: Hs, i: Input)
    requires Ready(hs) && hs.state == Tls13
    ensures var (hs', w) := DoTls13(hs, i); After(hs', w)
  {
    hide OrderOk, Acts, Verified, Checked, EndsWith, Nearer;
  }

  lemma StepAfter(c: Config, hs: Hs, i: Input)
    requires Ready(hs) && hs.state != Done
    ensures var (hs', w) := Step(c, hs, i); After(hs', w)
  {
    hide Ready, After;
    match hs.state {
      case StartConnect => StartConnectAfter(c, hs, i);
      case EnterEarlyData => EnterEarlyDataAfter(c, hs, i);
      case EarlyReverifyServerCertificate => EarlyReverifyAfter(c, hs, i);
      case ReadHelloVerifyRequest => HelloVerifyRequestAfter(hs, i);
      case ReadServerHello => ServerHelloAfter(c, hs, i);
      case Tls13 => Tls13After(hs, i);
      case ReadServerCertificate => CertificateAfter(hs, i);
      case ReadCertificateStatus => CertificateAfter(hs, i);
      case VerifyServerCertificate => VerifyAfter(hs, i);
      case ReverifyServerCertificate => ReverifyAfter(hs, i);
      case ReadServerKeyExchange => ServerFlightAfter(hs, i);
      case ReadCertificateRequest => ServerFlightAfter(hs, i);
      case ReadServerHelloDone => ServerFlightAfter(hs, i);
      case SendClientCertificate => ClientCertificateAfter(c, hs, i);
      case SendClientKeyExchange => KeyExchangeAfter(hs, i);
      case SendClientCertificateVerify => CertificateVerifyAfter(hs, i);
      case SendClientFinished => FinishedAfter(hs, i);
      case FinishFlight => FinishFlightAfter(c, hs, i);
      case ReadSessionTicket => TicketAfter(hs, i);
      case ProcessChangeCipherSpec => ReadKeysAfter(hs, i);
      case ReadServerFinished => ServerFinishedAfter(hs, i);
      case FinishClientHandshake => EndAfter(hs, i);
    }
  }

  // ---------- The loops ----------

  lemma {:induction false} MachineAfter(c: Config, hs: Hs, world: nat -> Input, n: nat)
    requires Ready(hs)
    ensures var (hs', w, n') := Machine(c, hs, world, n);
            && After(hs', w)
            && (w == Wait.Fine ==> hs'.state == Done)
    decreases Rank(hs)
  {
    if hs.state != Done {
      StepAfter(c, hs, world(n));
      hide OrderOk, Stage, Step;
      match Step(c, hs, world(n)) {
        case (hs', w) => if w == Wait.Fine { MachineAfter(c, hs', world, n + 1); }
      }
    }
  }

  /** Between rounds: after an error nothing is claimed but the order of what was
      done. */
  predicate Between(hs: Hs) {
    After(hs, hs.wait)
  }

  lemma WaitIsFree(hs: Hs, w: Wait)
    requires After(hs, w)
    ensures After(hs.(wait := w), w)
  {}

  lemma ResolveReady(hs: Hs, io: Io)
    requires Between(hs)
    ensures var (hs', ret, go) := Resolve(hs, io);
            if go then Ready(hs') else Between(hs')
    ensures var (hs', ret, go) := Resolve(hs, io);
            ret.Returned? && ret.code == 1 ==> !go && !hs'.ech.rejected
  {
    var resumed := hs.session.has;
    if hs.wait.NeedChangeCipherSpec? && io.open.Opened? {
      CcsOpened(hs);
    }
    hide OrderOk, Acts, Verified, Checked, EndsWith;
  }

  lemma CcsOpened(hs: Hs)
    requires OrderOk(hs.log) && Stage(hs)
    ensures Ready(hs.(log := hs.log + [OpenedChangeCipherSpec]))
  {
    EndOf(hs.log, OpenedChangeCipherSpec);
    var (r, s, w, c) := (InstalledReadKeys in hs.log, VerifiedServerFinished in hs.log,
                         InstalledWriteKeys in hs.log, FinishedSent(hs.log));
    assert Acts(hs.log, r, s, w, c);
    FreeAct(hs.log, OpenedChangeCipherSpec, r, s, w, c);
    SameActs(hs.log, hs.log + [OpenedChangeCipherSpec], r, s, w, c);
    hide OrderOk, Acts, Verified, Checked, EndsWith;
  }

  lemma SameActs(log: seq<Act>, log': seq<Act>, r: bool, s: bool, w: bool, c: bool)
    requires Acts(log, r, s, w, c) && Acts(log', r, s, w, c)
    ensures forall r1, s1, w1, c1 :: Acts(log', r1, s1, w1, c1) == Acts(log, r1, s1, w1, c1)
  {}

  lemma RoundAfter(c: Config, hs: Hs, io: Io, world: nat -> Input, n: nat)
    requires Between(hs)
    ensures var (hs', ret, n') := Round(c, hs, io, world, n);
            Between(hs') && (ret.Returned? && ret.code == 1 ==> !hs'.ech.rejected)
  {
    ResolveReady(hs, io);
    match Resolve(hs, io) {
      case (hs1, ret, go) =>
        if go {
          MachineAfter(c, hs1, world, n);
          match Machine(c, hs1, world, n) {
            case (hs2, w, n') => WaitIsFree(hs2, w);
          }
        }
    }
  }

  // ---------- Who the server is ----------

  /** Some a comes before some b. */
  predicate Before(log: seq<Act>, a: Act, b: Act) {
    exists k | 0 <= k < |log| :: log[k] == b && a in log[..k]
  }

  /** States in which the server's certificate, if it needs one, is settled. */
  predicate Settled(s: State) {
    || s.SendClientCertificateVerify? || s.SendClientFinished? || s.FinishFlight? || s.ReadSessionTicket?
    || s.ProcessChangeCipherSpec? || s.ReadServerFinished? || s.FinishClientHandshake? || s.Done?
  }

  /** States in which the client's Finished has been sent. */
  predicate Flown(s: State, resumed: bool) {
    || s.FinishFlight? || s.FinishClientHandshake? || s.Done?
    || (!resumed && (s.ReadSessionTicket? || s.ProcessChangeCipherSpec? || s.ReadServerFinished?))
  }

  /** The key exchange message that the cipher asks for. */
  function KeyExchange(hs: Hs): Act {
    Act.SentClientKeyExchange(hs.neg.cipher.certAuth, hs.neg.cipher.needsServerKeyExchange)
  }

  /** In a full handshake the key exchange message was sent; a session was resumed
      with its certificate verified again, if that is asked for. */
  predicate Trusted(c: Config, hs: Hs) {
    if hs.session.has then hs.neg.cipher.certAuth && c.reverifyOnResume ==> VerifiedCertificate in hs.log
    else KeyExchange(hs) in hs.log
  }

  /** And all this before the client's Finished. */
  predicate Authenticated(c: Config, hs: Hs) {
    && SentClientFinished(hs.session.has) in hs.log
    && if hs.session.has then
         hs.neg.cipher.certAuth && c.reverifyOnResume ==> Before(hs.log, VerifiedCertificate, SentClientFinished(true))
       else Before(hs.log, KeyExchange(hs), SentClientFinished(false))
  }

  predicate Proven(c: Config, hs: Hs) {
    !hs.neg.tls13 ==>
      && (Settled(hs.state) ==> Trusted(c, hs))
      && (Flown(hs.state, hs.session.has) ==> Authenticated(c, hs))
  }

  /** Below TLS 1.3 the only early returns are with early keys, before the
      ServerHello, and by false start. */
  predicate EarlyOk(hs: Hs, w: Wait) {
    w == EarlyReturn && !hs.neg.tls13 ==> hs.state == ReadServerHello || (hs.state == ReadSessionTicket && !hs.session.has)
  }

  lemma BeforeGrows(log: seq<Act>, more: seq<Act>, a: Act, b: Act)
    requires Before(log, a, b)
    ensures Before(log + more, a, b)
  {
    var k :| 0 <= k < |log| && log[k] == b && a in log[..k];
    assert (log + more)[k] == b && (log + more)[..k] == log[..k];
  }

  /** What was done stays done. */
  lemma ActsGrow(c: Config, hs: Hs, hs': Hs, more: seq<Act>)
    requires hs'.log == hs.log + more && hs'.session.has == hs.session.has && hs'.neg.cipher == hs.neg.cipher
    ensures Trusted(c, hs) ==> Trusted(c, hs')
    ensures Authenticated(c, hs) ==> Authenticated(c, hs')
  {
    hide Before;
    if Before(hs.log, VerifiedCertificate, SentClientFinished(true)) {
      BeforeGrows(hs.log, more, VerifiedCertificate, SentClientFinished(true));
    }
    if Before(hs.log, KeyExchange(hs), SentClientFinished(false)) {
      BeforeGrows(hs.log, more, KeyExchange(hs), SentClientFinished(false));
    }
  }

  /** A step that adds acts but settles nothing keeps what is proven. */
  lemma QuietProven(c: Config, hs: Hs, hs': Hs, more: seq<Act>)
    requires Proven(c, hs) && hs'.log == hs.log + more && hs'.neg.tls13 == hs.neg.tls13
    requires hs'.session.has == hs.session.has && hs'.neg.cipher == hs.neg.cipher
    requires Settled(hs'.state) ==> Settled(hs.state)
    requires Flown(hs'.state, hs.session.has) ==> Flown(hs.state, hs.session.has)
    ensures Proven(c, hs')
  {
    ActsGrow(c, hs, hs', more);
    hide Trusted, Authenticated;
  }

  lemma NothingMore(log: seq<Act>)
    ensures log + [] == log
  {}

  /** Before the certificate is settled, and of TLS 1.3, nothing is claimed. */
  lemma OpenProven(c: Config, hs: Hs)
    requires !Settled(hs.state) || hs.neg.tls13
    ensures Proven(c, hs)
  {}

  lemma HelloProven(c: Config, hs: Hs, i: Input)
    requires Ready(hs) && Proven(c, hs) && hs.state == ReadServerHello
    ensures var (hs', w) := DoReadServerHello(c, hs, i); Proven(c, hs') && EarlyOk(hs', w)
  {
    hide OrderOk, Acts, Verified, Checked, EndsWith, Nearer, Before;
  }

  lemma ReverifyProven(c: Config, hs: Hs, i: Input)
    requires Ready(hs) && Proven(c, hs) && hs.state == ReverifyServerCertificate
    ensures var (hs', w) := DoReverifyServerCertificate(hs, i); Proven(c, hs') && EarlyOk(hs', w)
  {
    hide OrderOk, Acts, Verified, Checked, EndsWith, Nearer, Before;
    assert VerifiedCertificate in hs.log + [VerifiedCertificate];
  }

  lemma KeyExchangeProven(c: Config, hs: Hs, i: Input)
    requires Ready(hs) && Proven(c, hs) && hs.state == SendClientKeyExchange
    ensures var (hs', w) := DoSendClientKeyExchange(hs, i); Proven(c, hs') && EarlyOk(hs', w)
  {
    hide OrderOk, Acts, Verified, Checked, EndsWith, Nearer, Before;
    var a := KeyExchange(hs);
    assert a in hs.log + [a];
  }

  lemma CertificateVerifyProven(c: Config, hs: Hs, i: Input)
    requires Ready(hs) && Proven(c, hs) && hs.state == SendClientCertificateVerify
    ensures var (hs', w) := DoSendClientCertificateVerify(hs, i); Proven(c, hs') && EarlyOk(hs', w)
  {
    NothingMore(hs.log);
    var (hs', w) := DoSendClientCertificateVerify(hs, i);
    QuietProven(c, hs, hs', if hs'.log == hs.log then [] else [SentCertificateVerify]);
    hide Ready, Proven;
  }

  lemma LastComesAfter(log: seq<Act>, more: seq<Act>, a: Act, b: Act)
    requires a in log
    ensures Before(log + more + [b], a, b)
  {
    var l := log + more + [b];
    var k := |log| + |more|;
    assert l[k] == b && l[..k] == log + more;
  }

  /** The client's Finished follows what makes the server trusted. */
  lemma FlownProven(c: Config, hs: Hs, hs': Hs, more: seq<Act>)
    requires Trusted(c, hs) && hs'.log == hs.log + more + [SentClientFinished(hs.session.has)]
    requires hs'.session.has == hs.session.has && hs'.neg.cipher == hs.neg.cipher
    ensures Proven(c, hs')
  {
    var a := if hs.session.has then VerifiedCertificate else KeyExchange(hs);
    if a in hs.log { LastComesAfter(hs.log, more, a, SentClientFinished(hs.session.has)); }
    hide Before;
  }

  lemma FinishedProven(c: Config, hs: Hs, i: Input)
    requires Ready(hs) && Proven(c, hs) && hs.state == SendClientFinished
    ensures var (hs', w) := DoSendClientFinished(hs, i); Proven(c, hs') && EarlyOk(hs', w)
  {
    assert Trusted(c, hs);
    hide Ready, Nearer, Proven, Trusted;
    var two := [SentChangeCipherSpec] + [InstalledWriteKeys];
    var hs' := DoSendClientFinished(hs, i).0;
    assert hs.log + [SentChangeCipherSpec] + [InstalledWriteKeys] == hs.log + two;
    if i.fail != 0 {
      NothingMore(hs.log);
      QuietProven(c, hs, hs', if i.fail == 1 then [] else if i.fail == 2 then [SentChangeCipherSpec] else two);
    } else {
      FlownProven(c, hs, hs', two);
    }
  }

  lemma FinishFlightProven(c: Config, hs: Hs, i: Input)
    requires Ready(hs) && Proven(c, hs) && hs.state == FinishFlight
    ensures var (hs', w) := DoFinishFlight(c, hs, i); Proven(c, hs') && EarlyOk(hs', w)
  {
    NothingMore(hs.log);
    var (hs', w) := DoFinishFlight(c, hs, i);
    QuietProven(c, hs, hs', if hs'.log == hs.log then [] else [ReturnedEarly]);
    hide Ready, Proven;
  }

  lemma TicketProven(c: Config, hs: Hs, i: Input)
    requires Ready(hs) && Proven(c, hs) && hs.state == ReadSessionTicket
    ensures var (hs', w) := DoReadSessionTicket(hs, i); Proven(c, hs') && EarlyOk(hs', w)
  {
    NothingMore(hs.log);
    QuietProven(c, hs, DoReadSessionTicket(hs, i).0, []);
    hide Ready, Proven;
  }

  lemma ReadKeysProven(c: Config, hs: Hs, i: Input)
    requires Ready(hs) && Proven(c, hs) && hs.state == ProcessChangeCipherSpec
    ensures var (hs', w) := DoProcessChangeCipherSpec(hs, i); Proven(c, hs') && EarlyOk(hs', w)
  {
    NothingMore(hs.log);
    QuietProven(c, hs, DoProcessChangeCipherSpec(hs, i).0, if i.fail != 0 then [] else [InstalledReadKeys]);
    hide Ready, Proven;
  }

  lemma ServerFinishedProven(c: Config, hs: Hs, i: Input)
    requires Ready(hs) && Proven(c, hs) && hs.state == ReadServerFinished
    ensures var (hs', w) := DoReadServerFinished(hs, i); Proven(c, hs') && EarlyOk(hs', w)
  {
    NothingMore(hs.log);
    var (hs', w) := DoReadServerFinished(hs, i);
    QuietProven(c, hs, hs', if hs'.log == hs.log then [] else [VerifiedServerFinished]);
    hide Ready, Proven;
  }

  lemma EndProven(c: Config, hs: Hs, i: Input)
    requires Ready(hs) && Proven(c, hs) && hs.state == FinishClientHandshake
    ensures var (hs', w) := DoFinishClientHandshake(hs, i); Proven(c, hs') && EarlyOk(hs', w)
  {
    NothingMore(hs.log);
    var (hs', w) := DoFinishClientHandshake(hs, i);
    QuietProven(c, hs, hs', if hs'.log == hs.log then [] else [Completed(hs.neg.tls13)]);
    hide Ready, Proven;
  }

  /** The other states settle nothing. */
  lemma EarlyStatesProven(c: Config, hs: Hs, i: Input)
    requires Ready(hs) && !Settled(hs.state) && hs.state != ReadServerHello
    requires hs.state != ReverifyServerCertificate && hs.state != SendClientKeyExchange
    ensures var (hs', w) := Step(c, hs, i); Proven(c, hs') && EarlyOk(hs', w)
  {
    assert hs.state == Tls13 ==> hs.neg.tls13;
    hide Ready, Nearer, Proven;
    OpenProven(c, Step(c, hs, i).0);
  }

  lemma StepProven(c: Config, hs: Hs, i: Input)
    requires Ready(hs) && Proven(c, hs) && hs.state != Done
    ensures var (hs', w) := Step(c, hs, i); Proven(c, hs') && EarlyOk(hs', w)
  {
    hide Ready, Proven, EarlyOk;
    match hs.state {
      case ReadServerHello => HelloProven(c, hs, i);
      case ReverifyServerCertificate => ReverifyProven(c, hs, i);
      case SendClientKeyExchange => KeyExchangeProven(c, hs, i);
      case SendClientCertificateVerify => CertificateVerifyProven(c, hs, i);
      case SendClientFinished => FinishedProven(c, hs, i);
      case FinishFlight => FinishFlightProven(c, hs, i);
      case ReadSessionTicket => TicketProven(c, hs, i);
      case ProcessChangeCipherSpec => ReadKeysProven(c, hs, i);
      case ReadServerFinished => ServerFinishedProven(c, hs, i);
      case FinishClientHandshake => EndProven(c, hs, i);
      case _ => EarlyStatesProven(c, hs, i);
    }
  }

  lemma {:induction false} MachineProven(c: Config, hs: Hs, world: nat -> Input, n: nat)
    requires Ready(hs) && Proven(c, hs)
    ensures var (hs', w, n') := Machine(c, hs, world, n); Proven(c, hs') && EarlyOk(hs', w)
    decreases Rank(hs)
  {
    if hs.state != Done {
      StepAfter(c, hs, world(n));
      StepProven(c, hs, world(n));
      hide OrderOk, Stage, Step, Proven, EarlyOk;
      match Step(c, hs, world(n)) {
        case (hs', w) => if w == Wait.Fine { MachineProven(c, hs', world, n + 1); }
      }
    }
  }

  /** What is claimed between rounds. */
  predicate Sound(c: Config, hs: Hs) {
    Between(hs) && Proven(c, hs) && EarlyOk(hs, hs.wait)
  }

  /** A call that succeeds below TLS 1.3, unless it returns early with early keys:
      the server has been authenticated. */
  predicate SuccessOk(c: Config, hs: Hs, ret: Returned) {
    ret.Returned? && ret.code == 1 ==>
      && !hs.ech.rejected
      && (!hs.neg.tls13 && hs.state != ReadServerHello ==> Authenticated(c, hs))
  }

  lemma ResolveProven(c: Config, hs: Hs, io: Io)
    requires Proven(c, hs) && EarlyOk(hs, hs.wait)
    ensures var (hs', ret, go) := Resolve(hs, io);
            && Proven(c, hs') && EarlyOk(hs', hs'.wait)
            && (ret.Returned? && ret.code == 1 && !hs'.neg.tls13 && hs'.state != ReadServerHello ==> Authenticated(c, hs'))
  {
    NothingMore(hs.log);
    var hs' := Resolve(hs, io).0;
    QuietProven(c, hs, hs', if hs'.log == hs.log then [] else [OpenedChangeCipherSpec]);
    hide Trusted, Authenticated;
  }

  lemma RoundSound(c: Config, hs: Hs, io: Io, world: nat -> Input, n: nat)
    requires Sound(c, hs)
    ensures var (hs', ret, n') := Round(c, hs, io, world, n); Sound(c, hs') && SuccessOk(c, hs', ret)
  {
    RoundAfter(c, hs, io, world, n);
    ResolveReady(hs, io);
    ResolveProven(c, hs, io);
    hide Between, Ready, Machine, Trusted, Authenticated, After;
    match Resolve(hs, io) {
      case (hs1, ret, go) =>
        if go {
          MachineAfter(c, hs1, world, n);
          MachineProven(c, hs1, world, n);
          match Machine(c, hs1, world, n) {
            case (hs2, w, n') => QuietProven(c, hs2, hs2.(wait := w), []);
          }
        }
    }
  }

  // ---------- Main results ----------

  lemma StartReady(hasSession: bool)
    ensures Between(Start(hasSession))
  {}

  lemma StartSound(c: Config, hasSession: bool)
    ensures Sound(c, Start(hasSession))
  {}

  lemma {:induction false} RoundsSound(c: Config, hs: Hs, ios: seq<Io>, world: nat -> Input, n: nat)
    requires Sound(c, hs)
    ensures Sound(c, Rounds(c, hs, ios, world, n).0)
    decreases |ios|
  {
    hide Sound, Round;
    if ios != [] {
      RoundSound(c, hs, ios[0], world, n);
      match Round(c, hs, ios[0], world, n) {
        case (hs', ret, n') => RoundsSound(c, hs', ios[1..], world, n');
      }
    }
  }

  lemma {:induction false} RoundsAfter(c: Config, hs: Hs, ios: seq<Io>, world: nat -> Input, n: nat)
    requires Between(hs)
    ensures Between(Rounds(c, hs, ios, world, n).0)
    decreases |ios|
  {
    hide Between, Round;
    if ios != [] {
      RoundAfter(c, hs, ios[0], world, n);
      match Round(c, hs, ios[0], world, n) {
        case (hs', ret, n') => RoundsAfter(c, hs', ios[1..], world, n');
      }
    }
  }

  /** Errors are sticky: whatever happens later, nothing changes and the same is
      returned. */
  lemma {:induction false} ErrorsStick(c: Config, hs: Hs, ios: seq<Io>, world: nat -> Input, n: nat)
    requires hs.wait == Error
    ensures Rounds(c, hs, ios, world, n) == (hs, n)
    ensures ios != [] ==> Round(c, hs, ios[0], world, n) == (hs, Returned(-1, false), n)
    decreases |ios|
  {
    hide Machine;
    if ios != [] { ErrorsStick(c, hs, ios[1..], world, n); }
  }

  predicate Only(log: seq<Act>, i: nat, a: Act) {
    i < |log| && log[i] == a && forall j | 0 <= j < |log| :: log[j] == a ==> j == i
  }

  predicate Decisive(a: Act) {
    a.InstalledReadKeys? || a.VerifiedServerFinished? || a.InstalledWriteKeys? || a.SentClientFinished?
  }

  lemma NotTwice(log: seq<Act>, a: Act, i: nat, j: nat)
    requires OrderOk(log) && Decisive(a) && i < j < |log|
    ensures !(log[i] == a && log[j] == a)
  {
    assert Allowed(log[..j], log[j]);
    assert log[..j][i] == log[i];
  }

  /** A decisive act happens at most once. */
  lemma OnceOnly(log: seq<Act>, a: Act) returns (i: nat)
    requires OrderOk(log) && a in log && Decisive(a)
    ensures Only(log, i, a)
  {
    i :| 0 <= i < |log| && log[i] == a;
    forall j | 0 <= j < i ensures log[j] != a { NotTwice(log, a, j, i); }
    forall j | i < j < |log| ensures log[j] != a { NotTwice(log, a, i, j); }
  }

  /** What the order of acts says of a finished handshake. */
  lemma ReadSide(log: seq<Act>) returns (readKeys: nat, serverFinished: nat)
    requires OrderOk(log) && InstalledReadKeys in log && VerifiedServerFinished in log
    ensures Only(log, readKeys, InstalledReadKeys) && readKeys > 0 && log[readKeys - 1] == OpenedChangeCipherSpec
    ensures Only(log, serverFinished, VerifiedServerFinished) && readKeys < serverFinished
  {
    readKeys := OnceOnly(log, InstalledReadKeys);
    serverFinished := OnceOnly(log, VerifiedServerFinished);
    assert Allowed(log[..readKeys], log[readKeys]);
    assert Allowed(log[..serverFinished], log[serverFinished]);
  }

  lemma WriteSide(log: seq<Act>, resumed: bool) returns (writeKeys: nat, clientFinished: nat)
    requires OrderOk(log) && SentClientFinished(resumed) in log
    ensures Only(log, writeKeys, InstalledWriteKeys) && writeKeys > 0 && log[writeKeys - 1] == SentChangeCipherSpec
    ensures Only(log, clientFinished, SentClientFinished(resumed)) && clientFinished == writeKeys + 1
    ensures resumed ==> VerifiedServerFinished in log[..clientFinished]
  {
    clientFinished := OnceOnly(log, SentClientFinished(resumed));
    assert Allowed(log[..clientFinished], log[clientFinished]);
    assert log[clientFinished - 1] == InstalledWriteKeys;
    writeKeys := OnceOnly(log, InstalledWriteKeys);
    assert Allowed(log[..writeKeys], log[writeKeys]);
  }

  /** A client sends one Finished, of either kind. */
  lemma OneFinished(log: seq<Act>, i: nat, j: nat)
    requires OrderOk(log) && i < |log| && j < |log| && log[i].SentClientFinished? && log[j].SentClientFinished?
    ensures i == j
  {
    assert Allowed(log[..i], log[i]) && Allowed(log[..j], log[j]);
    assert i > 0 && log[i - 1] == InstalledWriteKeys && j > 0 && log[j - 1] == InstalledWriteKeys;
    var k := OnceOnly(log, InstalledWriteKeys);
  }

  /** Every run of the client below TLS 1.3 that reaches the end: read keys were
      installed once, right after a ChangeCipherSpec was opened; one server
      Finished was verified, under them; write keys were installed once, right
      after ChangeCipherSpec was sent, and the one client Finished was the next
      thing decided, in a resumption after the server's.  If the cipher
      authenticates by certificate, the certificate was verified before all this:
      in a full handshake before the key exchange message, and in a resumption
      if that is asked for.  If the cipher has the server send parameters, these
      were checked before that message too.  ECH was not rejected. */
  lemma CompletedSafely(c: Config, hasSession: bool, ios: seq<Io>, world: nat -> Input)
      returns (readKeys: nat, serverFinished: nat, writeKeys: nat, clientFinished: nat)
    requires var hs := Rounds(c, Start(hasSession), ios, world, 0).0;
             hs.state == Done && !hs.neg.tls13
    ensures var hs := Rounds(c, Start(hasSession), ios, world, 0).0;
            && Only(hs.log, readKeys, InstalledReadKeys) && readKeys > 0 && hs.log[readKeys - 1] == OpenedChangeCipherSpec
            && Only(hs.log, serverFinished, VerifiedServerFinished) && readKeys < serverFinished
            && Only(hs.log, writeKeys, InstalledWriteKeys) && writeKeys > 0 && hs.log[writeKeys - 1] == SentChangeCipherSpec
            && clientFinished == writeKeys + 1 && clientFinished < |hs.log|
            && hs.log[clientFinished] == SentClientFinished(hs.session.has)
            && (forall j | 0 <= j < |hs.log| && hs.log[j].SentClientFinished? :: j == clientFinished)
            && (hs.session.has ==> serverFinished < clientFinished)
            && ServerKnown(c, hs, clientFinished)
            && !hs.ech.rejected
  {
    StartSound(c, hasSession);
    RoundsSound(c, Start(hasSession), ios, world, 0);
    var hs := Rounds(c, Start(hasSession), ios, world, 0).0;
    var log := hs.log;
    hide Rounds;
    SoundDone(c, hs);
    hide OrderOk, Sound;
    readKeys, serverFinished := ReadSide(log);
    writeKeys, clientFinished := WriteSide(log, hs.session.has);
    forall j | 0 <= j < |log| && log[j].SentClientFinished? ensures j == clientFinished { OneFinished(log, j, clientFinished); }
    KnownBefore(c, hs, clientFinished);
  }

  lemma SoundDone(c: Config, hs: Hs)
    requires Sound(c, hs) && hs.state == Done && !hs.neg.tls13
    ensures OrderOk(hs.log) && Acts(hs.log, true, true, true, true) && Authenticated(c, hs) && !hs.ech.rejected
  {
    hide OrderOk, Acts, Trusted, Authenticated;
  }

  /** Before the first n acts were over, in a full handshake, the key exchange
      message was sent; ahead of it the certificate was verified, if the cipher
      authenticates by one, and the server's key exchange parameters were checked,
      if the cipher has some.  In a resumption the certificate was verified, if that
      is asked for. */
  predicate ServerKnown(c: Config, hs: Hs, n: nat)
    requires n <= |hs.log|
  {
    if hs.session.has then hs.neg.cipher.certAuth && c.reverifyOnResume ==> VerifiedCertificate in hs.log[..n]
    else
      && KeyExchange(hs) in hs.log[..n]
      && (hs.neg.cipher.certAuth ==> Before(hs.log[..n], VerifiedCertificate, KeyExchange(hs)))
      && (hs.neg.cipher.needsServerKeyExchange ==> Before(hs.log[..n], CheckedServerKeyExchange, KeyExchange(hs)))
  }

  lemma KnownBefore(c: Config, hs: Hs, n: nat)
    requires OrderOk(hs.log) && Authenticated(c, hs) && n < |hs.log| && hs.log[n] == SentClientFinished(hs.session.has)
    requires forall j | 0 <= j < |hs.log| && hs.log[j].SentClientFinished? :: j == n
    ensures ServerKnown(c, hs, n)
  {
    var a := if hs.session.has then VerifiedCertificate else KeyExchange(hs);
    if Before(hs.log, a, SentClientFinished(hs.session.has)) {
      assert a in hs.log[..n];
      if !hs.session.has {
        var j :| 0 <= j < n && hs.log[..n][j] == a;
        assert Allowed(hs.log[..j], hs.log[j]);
        assert hs.log[..n][..j] == hs.log[..j];
      }
    }
  }

  /** In every run, finished or not, a ClientKeyExchange for a cipher that
      authenticates by certificate comes after the server's was verified, and one
      for a cipher that has parameters of the server after these were checked. */
  lemma VerifiedBeforeKeyExchange(c: Config, hasSession: bool, ios: seq<Io>, world: nat -> Input, i: nat)
    requires var log := Rounds(c, Start(hasSession), ios, world, 0).0.log;
             i < |log| && log[i].SentClientKeyExchange?
    ensures var log := Rounds(c, Start(hasSession), ios, world, 0).0.log;
            && (log[i].needsCertificate ==> VerifiedCertificate in log[..i])
            && (log[i].needsParameters ==> CheckedServerKeyExchange in log[..i])
  {
    StartReady(hasSession);
    RoundsAfter(c, Start(hasSession), ios, world, 0);
    var log := Rounds(c, Start(hasSession), ios, world, 0).0.log;
    assert Allowed(log[..i], log[i]);
  }

  /** Every call that succeeds below TLS 1.3, whether the handshake is complete or
      this is a false start: the client's one Finished was sent, and the server was
      known before.  Only a return with early keys, before the ServerHello, is
      another matter. */
  lemma SuccessAuthenticated(c: Config, hasSession: bool, ios: seq<Io>, io: Io, world: nat -> Input)
      returns (clientFinished: nat)
    requires var (hs, n) := Rounds(c, Start(hasSession), ios, world, 0);
             var (hs', ret, n') := Round(c, hs, io, world, n);
             ret.Returned? && ret.code == 1 && !hs'.neg.tls13 && hs'.state != ReadServerHello
    ensures var (hs, n) := Rounds(c, Start(hasSession), ios, world, 0);
            var (hs', ret, n') := Round(c, hs, io, world, n);
            && clientFinished < |hs'.log| && hs'.log[clientFinished] == SentClientFinished(hs'.session.has)
            && (forall j | 0 <= j < |hs'.log| && hs'.log[j].SentClientFinished? :: j == clientFinished)
            && ServerKnown(c, hs', clientFinished)
  {
    StartSound(c, hasSession);
    RoundsSound(c, Start(hasSession), ios, world, 0);
    var (hs, n) := Rounds(c, Start(hasSession), ios, world, 0);
    hide Rounds;
    RoundSound(c, hs, io, world, n);
    var (hs', ret, n') := Round(c, hs, io, world, n);
    hide Round;
    assert OrderOk(hs'.log) && Authenticated(c, hs');
    hide OrderOk, Sound;
    clientFinished :| 0 <= clientFinished < |hs'.log| && hs'.log[clientFinished] == SentClientFinished(hs'.session.has);
    forall j | 0 <= j < |hs'.log| && hs'.log[j].SentClientFinished? ensures j == clientFinished {
      OneFinished(hs'.log, j, clientFinished);
    }
    KnownBefore(c, hs', clientFinished);
  }

  /** What the driver's own assertion claims: a call never succeeds after ECH was
      rejected. */
  lemma NoSuccessOnEchReject(c: Config, hasSession: bool, ios: seq<Io>, io: Io, world: nat -> Input)
    ensures var (hs, n) := Rounds(c, Start(hasSession), ios, world, 0);
            var (hs', ret, n') := Round(c, hs, io, world, n);
            ret.Returned? && ret.code == 1 ==> !hs'.ech.rejected
  {
    StartReady(hasSession);
    RoundsAfter(c, Start(hasSession), ios, world, 0);
    var (hs, n) := Rounds(c, Start(hasSession), ios, world, 0);
    hide Rounds, Round, Between;
    RoundAfter(c, hs, io, world, n);
  }
}
