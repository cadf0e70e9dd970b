/** The client's handshake state machine for TLS 1.2 and below, and the driver
    that runs it.  Each state's step is a function on values; Handshaker carries
    them out in place.  TLS 1.3 is one state here. */
module ClientHandshake {
  import opened Bytes

  datatype State =
    | StartConnect | EnterEarlyData | EarlyReverifyServerCertificate | ReadHelloVerifyRequest
    | ReadServerHello | Tls13 | ReadServerCertificate | ReadCertificateStatus
    | VerifyServerCertificate | ReverifyServerCertificate | ReadServerKeyExchange
    | ReadCertificateRequest | ReadServerHelloDone | SendClientCertificate
    | SendClientKeyExchange | SendClientCertificateVerify | SendClientFinished
    | FinishFlight | ReadSessionTicket | ProcessChangeCipherSpec | ReadServerFinished
    | FinishClientHandshake | Done

  /** What the state machine waits for; AnyTls13 stands for what only the TLS 1.3
      machine waits for. */
  datatype Wait =
    | Error | Fine | NeedServerHello | NeedMessage | NeedFlush | NeedX509Lookup
    | NeedPrivateKey | NeedCertificateVerify | NeedChangeCipherSpec | EarlyReturn | AnyTls13

  datatype Msg =
    | HelloVerifyRequest | ServerHello | Certificate | CertificateStatus | ServerKeyExchange
    | CertificateRequest | ServerHelloDone | NewSessionTicket | Finished | OtherMsg

  /** What the negotiated cipher suite asks for. */
  datatype Cipher = Cipher(certAuth: bool, needsServerKeyExchange: bool, ecdheAead: bool)

  datatype Verify = VerifyOk | VerifyInvalid | VerifyRetry

  datatype Sign = SignSuccess | SignFailure | SignRetry

  /** What the handshake has done, in order. */
  datatype Act =
    | SentClientHello
    | InstalledEarlyKeys
    | OpenedChangeCipherSpec
    | InstalledReadKeys
    | VerifiedServerFinished
    | SentChangeCipherSpec
    | InstalledWriteKeys
    | SentClientFinished(resumed: bool)
    | VerifiedCertificate
    | SentClientCertificate
    | CheckedServerKeyExchange
    | SentClientKeyExchange(needsCertificate: bool, needsParameters: bool)
    | SentCertificateVerify
    | ReturnedEarly
    | Completed(tls13: bool)

  /** The configuration a handshake does not change. */
  datatype Config = Config(isDtls: bool, max13: bool, reverifyOnResume: bool, hasCertCb: bool, falseStart: bool, anyAlpn: bool)

  /** Whether there is a session being offered or resumed, and one being made. */
  datatype Session = Session(has: bool, making: bool)

  datatype Ech = Ech(selected: bool, rejected: bool)

  datatype Early = Early(offered: bool, canWrite: bool)

  /** What the ServerHello has settled. */
  datatype Negotiated = Negotiated(tls13: bool, tls12: bool, cipher: Cipher, statusExpected: bool, ticketExpected: bool, alpn: bool)

  datatype ClientAuth = ClientAuth(requested: bool, hasCert: bool)

  datatype Hs = Hs(state: State, wait: Wait, session: Session, ech: Ech, early: Early, neg: Negotiated, auth: ClientAuth,
                   log: seq<Act>)

  function Start(hasSession: bool): Hs {
    Hs(StartConnect, Wait.Fine, Session(hasSession, false), Ech(false, false), Early(false, false),
       Negotiated(false, false, Cipher(true, true, false), false, false, false), ClientAuth(false, false), [])
  }

  /** What the world decides about one step.  fail is 0 when no check fails, and
      otherwise says which does; msg is the message there is, if any. */
  datatype Input = Input(
    fail: nat,
    msg: Option<Msg>,
    verify: Verify,
    sign: Sign,
    certCb: int,
    sessionUsable: bool,
    echSelected: bool,
    earlyOffered: bool,
    version13: bool,
    version12: bool,
    downgraded: bool,
    echoed: bool,
    resumable: bool,
    cipher: Cipher,
    statusExpected: bool,
    ticketExpected: bool,
    emptyTicket: bool,
    emsMatches: bool,
    hasCert: bool,
    alpn: bool,
    excess: bool,
    finishedMatches: bool,
    tls13Wait: Wait)

  function Acted(hs: Hs, a: Act): Hs { hs.(log := hs.log + [a]) }

  function To(hs: Hs, s: State): Hs { hs.(state := s) }

  // ---------- The order of states ----------

  /** The states in the order of a full handshake, counted from the end. */
  function Left(s: State): nat {
    match s
    case StartConnect => 22
    case EnterEarlyData => 21
    case EarlyReverifyServerCertificate => 20
    case ReadHelloVerifyRequest => 19
    case ReadServerHello => 18
    case Tls13 => 17
    case ReadServerCertificate => 16
    case ReadCertificateStatus => 15
    case VerifyServerCertificate => 14
    case ReverifyServerCertificate => 13
    case ReadServerKeyExchange => 12
    case ReadCertificateRequest => 11
    case ReadServerHelloDone => 10
    case SendClientCertificate => 9
    case SendClientKeyExchange => 8
    case SendClientCertificateVerify => 7
    case SendClientFinished => 6
    case FinishFlight => 5
    case ReadSessionTicket => 4
    case ProcessChangeCipherSpec => 3
    case ReadServerFinished => 2
    case FinishClientHandshake => 1
    case Done => 0
  }

  /** How far a state is from the end.  In a resumption the client's Finished
      comes after the server's. */
  function Rank(hs: Hs): nat {
    if hs.session.has && hs.state == SendClientFinished then 5
    else if hs.session.has && hs.state == FinishFlight then 4
    else 3 * Left(hs.state)
  }

  /** A step stays where it is and waits, or comes nearer to the end. */
  predicate Nearer(hs: Hs, r: (Hs, Wait)) {
    if r.0.state == hs.state then r.1 != Fine else Rank(r.0) < Rank(hs)
  }

  // ---------- The states ----------

  function DoStartConnect(c: Config, hs: Hs, i: Input): (r: (Hs, Wait))
    requires hs.state == StartConnect
    ensures Nearer(hs, r)
  {
    if i.fail != 0 then (hs, Error)
    else
      var has := hs.session.has && i.sessionUsable;
      var hs1 := hs.(session := Session(has, false), ech := Ech(i.echSelected, false),
                     early := Early(c.max13 && !c.isDtls && has && i.earlyOffered, false));
      (To(Acted(hs1, SentClientHello), EnterEarlyData), NeedFlush)
  }

  function DoEnterEarlyData(c: Config, hs: Hs, i: Input): (r: (Hs, Wait))
    requires hs.state == EnterEarlyData
    ensures Nearer(hs, r)
  {
    if c.isDtls then (To(hs, ReadHelloVerifyRequest), Fine)
    else if !hs.early.offered then (To(hs, ReadServerHello), Fine)
    else if i.fail == 1 then (hs, Error)
    else if i.fail != 0 then (Acted(hs, SentChangeCipherSpec), Error)
    else (To(Acted(hs, SentChangeCipherSpec), EarlyReverifyServerCertificate), Fine)
  }

  function DoEarlyReverify(c: Config, hs: Hs, i: Input): (r: (Hs, Wait))
    requires hs.state == EarlyReverifyServerCertificate
    ensures Nearer(hs, r)
  {
    if c.reverifyOnResume && i.verify == VerifyInvalid then (hs, Error)
    else if c.reverifyOnResume && i.verify == VerifyRetry then (hs, NeedCertificateVerify)
    else if i.fail != 0 then (hs, Error)
    else (To(Acted(hs.(early := hs.early.(canWrite := true)), InstalledEarlyKeys), ReadServerHello), EarlyReturn)
  }

  function DoReadHelloVerifyRequest(hs: Hs, i: Input): (r: (Hs, Wait))
    requires hs.state == ReadHelloVerifyRequest
    ensures Nearer(hs, r)
  {
    match i.msg
    case None => (hs, NeedMessage)
    case Some(m) =>
      if m != HelloVerifyRequest then (To(hs, ReadServerHello), Fine)
      else if i.fail != 0 then (hs, Error)
      else (To(Acted(hs, SentClientHello), ReadServerHello), NeedFlush)
  }

  /** Up to the version: what follows is for TLS 1.2 and below. */
  function DoReadServerHello(c: Config, hs: Hs, i: Input): (r: (Hs, Wait))
    requires hs.state == ReadServerHello
    ensures Nearer(hs, r)
  {
    match i.msg
    case None => (hs, NeedServerHello)
    case Some(m) =>
      if m != ServerHello || i.fail == 1 then (hs, Error)
      else if i.version13 then (To(hs.(neg := hs.neg.(tls13 := true)), Tls13), Fine)
      else if hs.early.offered then (hs.(early := hs.early.(canWrite := false)), Error)
      else ReadServerHello12(c, hs.(ech := hs.ech.(rejected := hs.ech.rejected || hs.ech.selected)), i)
  }

  function ReadServerHello12(c: Config, hs: Hs, i: Input): (r: (Hs, Wait))
    requires hs.state == ReadServerHello
    ensures Nearer(hs, r)
  {
    if (c.max13 && i.downgraded) || i.fail == 2 then (hs, Error)
    else if i.echoed && (!hs.session.has || hs.ech.rejected || !i.resumable) then (hs, Error)
    else
      var hs1 := hs.(session := Session(i.echoed, !i.echoed),
                     neg := Negotiated(false, i.version12, i.cipher, i.statusExpected, i.ticketExpected, i.alpn));
      if i.fail != 0 || (hs1.session.has && !i.emsMatches) then (hs1, Error)
      else if hs1.session.has then
        (To(hs1, if c.reverifyOnResume && hs1.neg.cipher.certAuth then ReverifyServerCertificate else ReadSessionTicket), Fine)
      else (To(hs1, ReadServerCertificate), Fine)
  }

  function DoTls13(hs: Hs, i: Input): (r: (Hs, Wait))
    requires hs.state == Tls13
    ensures Nearer(hs, r)
  {
    if i.tls13Wait == Fine then (To(hs, FinishClientHandshake), Fine) else (hs, i.tls13Wait)
  }

  function DoReadServerCertificate(hs: Hs, i: Input): (r: (Hs, Wait))
    requires hs.state == ReadServerCertificate
    ensures Nearer(hs, r)
  {
    if !hs.neg.cipher.certAuth then (To(hs, ReadCertificateStatus), Fine)
    else
      match i.msg
      case None => (hs, NeedMessage)
      case Some(m) =>
        if m != Certificate || i.fail != 0 then (hs, Error) else (To(hs, ReadCertificateStatus), Fine)
  }

  function DoReadCertificateStatus(hs: Hs, i: Input): (r: (Hs, Wait))
    requires hs.state == ReadCertificateStatus
    ensures Nearer(hs, r)
  {
    if !hs.neg.statusExpected then (To(hs, VerifyServerCertificate), Fine)
    else
      match i.msg
      case None => (hs, NeedMessage)
      case Some(m) =>
        if m == CertificateStatus && i.fail != 0 then (hs, Error) else (To(hs, VerifyServerCertificate), Fine)
  }

  function DoVerifyServerCertificate(hs: Hs, i: Input): (r: (Hs, Wait))
    requires hs.state == VerifyServerCertificate
    ensures Nearer(hs, r)
  {
    if !hs.neg.cipher.certAuth then (To(hs, ReadServerKeyExchange), Fine)
    else
      match i.verify
      case VerifyInvalid => (hs, Error)
      case VerifyRetry => (hs, NeedCertificateVerify)
      case VerifyOk => (To(Acted(hs, VerifiedCertificate), ReadServerKeyExchange), Fine)
  }

  function DoReverifyServerCertificate(hs: Hs, i: Input): (r: (Hs, Wait))
    requires hs.state == ReverifyServerCertificate
    ensures Nearer(hs, r)
  {
    match i.verify
    case VerifyInvalid => (hs, Error)
    case VerifyRetry => (hs, NeedCertificateVerify)
    case VerifyOk => (To(Acted(hs, VerifiedCertificate), ReadSessionTicket), Fine)
  }

  function DoReadServerKeyExchange(hs: Hs, i: Input): (r: (Hs, Wait))
    requires hs.state == ReadServerKeyExchange
    ensures Nearer(hs, r)
  {
    match i.msg
    case None => (hs, NeedMessage)
    case Some(m) =>
      if m != ServerKeyExchange then
        if hs.neg.cipher.needsServerKeyExchange then (hs, Error) else (To(hs, ReadCertificateRequest), Fine)
      else if i.fail != 0 then (hs, Error)
      else (To(Acted(hs, CheckedServerKeyExchange), ReadCertificateRequest), Fine)
  }

  function DoReadCertificateRequest(hs: Hs, i: Input): (r: (Hs, Wait))
    requires hs.state == ReadCertificateRequest
    ensures Nearer(hs, r)
  {
    if !hs.neg.cipher.certAuth then (To(hs, ReadServerHelloDone), Fine)
    else
      match i.msg
      case None => (hs, NeedMessage)
      case Some(m) =>
        if m == ServerHelloDone then (To(hs, ReadServerHelloDone), Fine)
        else if m != CertificateRequest || i.fail != 0 then (hs, Error)
        else (To(hs.(auth := hs.auth.(requested := true)), ReadServerHelloDone), Fine)
  }

  function DoReadServerHelloDone(hs: Hs, i: Input): (r: (Hs, Wait))
    requires hs.state == ReadServerHelloDone
    ensures Nearer(hs, r)
  {
    match i.msg
    case None => (hs, NeedMessage)
    case Some(m) =>
      if m != ServerHelloDone || i.fail != 0 || i.excess then (hs, Error)
      else (To(hs, SendClientCertificate), Fine)
  }

  function DoSendClientCertificate(c: Config, hs: Hs, i: Input): (r: (Hs, Wait))
    requires hs.state == SendClientCertificate
    ensures Nearer(hs, r)
  {
    if !hs.auth.requested then (To(hs, SendClientKeyExchange), Fine)
    else if !hs.ech.rejected && c.hasCertCb && i.certCb == 0 then (hs, Error)
    else if !hs.ech.rejected && c.hasCertCb && i.certCb < 0 then (hs, NeedX509Lookup)
    else
      // On ECH reject no certificate is sent.
      var hs1 := hs.(auth := hs.auth.(hasCert := !hs.ech.rejected && i.hasCert));
      if i.fail != 0 then (hs1, Error) else (To(Acted(hs1, SentClientCertificate), SendClientKeyExchange), Fine)
  }

  function DoSendClientKeyExchange(hs: Hs, i: Input): (r: (Hs, Wait))
    requires hs.state == SendClientKeyExchange
    ensures Nearer(hs, r)
  {
    if i.fail == 1 then (hs, Error)
    else
      var hs1 := Acted(hs, Act.SentClientKeyExchange(hs.neg.cipher.certAuth, hs.neg.cipher.needsServerKeyExchange));
      if i.fail != 0 then (hs1, Error) else (To(hs1, SendClientCertificateVerify), Fine)
  }

  function DoSendClientCertificateVerify(hs: Hs, i: Input): (r: (Hs, Wait))
    requires hs.state == SendClientCertificateVerify
    ensures Nearer(hs, r)
  {
    if !hs.auth.requested || !hs.auth.hasCert then (To(hs, SendClientFinished), Fine)
    else if i.fail != 0 || i.sign == SignFailure then (hs, Error)
    else if i.sign == SignRetry then (hs, NeedPrivateKey)
    else (To(Acted(hs, SentCertificateVerify), SendClientFinished), Fine)
  }

  function DoSendClientFinished(hs: Hs, i: Input): (r: (Hs, Wait))
    requires hs.state == SendClientFinished
    ensures Nearer(hs, r)
  {
    if i.fail == 1 then (hs, Error)
    else
      var hs1 := Acted(hs, SentChangeCipherSpec);
      if i.fail == 2 then (hs1, Error)
      else
        var hs2 := Acted(hs1, InstalledWriteKeys);
        if i.fail != 0 then (hs2, Error) else (To(Acted(hs2, SentClientFinished(hs.session.has)), FinishFlight), NeedFlush)
  }

  predicate CanFalseStart(c: Config, hs: Hs) {
    && !c.isDtls && hs.neg.tls12 && hs.neg.cipher.ecdheAead
    && !hs.ech.rejected
    && (c.anyAlpn || hs.neg.alpn)
  }

  function DoFinishFlight(c: Config, hs: Hs, i: Input): (r: (Hs, Wait))
    requires hs.state == FinishFlight
    ensures Nearer(hs, r)
  {
    if hs.session.has then (To(hs, FinishClientHandshake), Fine)
    else if i.fail != 0 then (hs, Error)
    else if c.falseStart && CanFalseStart(c, hs) then
      (To(Acted(hs.(early := hs.early.(canWrite := true)), ReturnedEarly), ReadSessionTicket), EarlyReturn)
    else (To(hs, ReadSessionTicket), Fine)
  }

  function DoReadSessionTicket(hs: Hs, i: Input): (r: (Hs, Wait))
    requires hs.state == ReadSessionTicket
    ensures Nearer(hs, r)
  {
    if !hs.neg.ticketExpected then (To(hs, ProcessChangeCipherSpec), NeedChangeCipherSpec)
    else
      match i.msg
      case None => (hs, NeedMessage)
      case Some(m) =>
        if m != NewSessionTicket || i.fail == 1 then (hs, Error)
        else if i.emptyTicket then (To(hs.(neg := hs.neg.(ticketExpected := false)), ProcessChangeCipherSpec), NeedChangeCipherSpec)
        else if i.fail != 0 then (hs, Error)
        else (To(hs.(session := hs.session.(making := true)), ProcessChangeCipherSpec), NeedChangeCipherSpec)
  }

  function DoProcessChangeCipherSpec(hs: Hs, i: Input): (r: (Hs, Wait))
    requires hs.state == ProcessChangeCipherSpec
    ensures Nearer(hs, r)
  {
    if i.fail != 0 then (hs, Error) else (To(Acted(hs, InstalledReadKeys), ReadServerFinished), Fine)
  }

  /** ssl_get_finished and what follows it. */
  function DoReadServerFinished(hs: Hs, i: Input): (r: (Hs, Wait))
    requires hs.state == ReadServerFinished
    ensures Nearer(hs, r)
  {
    match i.msg
    case None => (hs, NeedMessage)
    case Some(m) =>
      if m != Finished || i.fail != 0 || !i.finishedMatches then (hs, Error)
      else
        var hs1 := Acted(hs, VerifiedServerFinished);
        if i.excess then (hs1, Error)
        else (To(hs1, if hs.session.has then SendClientFinished else FinishClientHandshake), Fine)
  }

  function DoFinishClientHandshake(hs: Hs, i: Input): (r: (Hs, Wait))
    requires hs.state == FinishClientHandshake
    ensures Nearer(hs, r)
  {
    if hs.ech.rejected || i.fail != 0 then (hs, Error)
    else (To(Acted(hs.(session := hs.session.(making := false)), Completed(hs.neg.tls13)), Done), Fine)
  }

  function Step(c: Config, hs: Hs, i: Input): (r: (Hs, Wait))
    ensures hs.state != Done ==> Nearer(hs, r)
  {
    match hs.state
    case StartConnect => DoStartConnect(c, hs, i)
    case EnterEarlyData => DoEnterEarlyData(c, hs, i)
    case EarlyReverifyServerCertificate => DoEarlyReverify(c, hs, i)
    case ReadHelloVerifyRequest => DoReadHelloVerifyRequest(hs, i)
    case ReadServerHello => DoReadServerHello(c, hs, i)
    case Tls13 => DoTls13(hs, i)
    case ReadServerCertificate => DoReadServerCertificate(hs, i)
    case ReadCertificateStatus => DoReadCertificateStatus(hs, i)
    case VerifyServerCertificate => DoVerifyServerCertificate(hs, i)
    case ReverifyServerCertificate => DoReverifyServerCertificate(hs, i)
    case ReadServerKeyExchange => DoReadServerKeyExchange(hs, i)
    case ReadCertificateRequest => DoReadCertificateRequest(hs, i)
    case ReadServerHelloDone => DoReadServerHelloDone(hs, i)
    case SendClientCertificate => DoSendClientCertificate(c, hs, i)
    case SendClientKeyExchange => DoSendClientKeyExchange(hs, i)
    case SendClientCertificateVerify => DoSendClientCertificateVerify(hs, i)
    case SendClientFinished => DoSendClientFinished(hs, i)
    case FinishFlight => DoFinishFlight(c, hs, i)
    case ReadSessionTicket => DoReadSessionTicket(hs, i)
    case ProcessChangeCipherSpec => DoProcessChangeCipherSpec(hs, i)
    case ReadServerFinished => DoReadServerFinished(hs, i)
    case FinishClientHandshake => DoFinishClientHandshake(hs, i)
    case Done => (hs, Fine)
  }

  // ---------- The loops ----------

  /** The while loop of ssl_client_handshake, with the answers of the world from
      the n-th on. */
  function Machine(c: Config, hs: Hs, world: nat -> Input, n: nat): (r: (Hs, Wait, nat))
    decreases Rank(hs)
  {
    if hs.state == Done then (hs, Fine, n)
    else
      match Step(c, hs, world(n))
      case (hs', w) => if w == Fine then Machine(c, hs', world, n + 1) else (hs', w, n + 1)
  }

  /** What comes of trying to open a record: a whole one, a reason to try again, or
      nothing for now, which is reported as a number that is not positive. */
  datatype Opening = Opened | Again | Blocked(code: nat)

  /** What the driver's caller is told. */
  datatype Returned = Running | Returned(code: int, early: bool)

  datatype Io = Io(flush: int, open: Opening)

  /** Resolving what the handshake waits for; Running means go on. */
  function Resolve(hs: Hs, io: Io): (r: (Hs, Returned, bool))
  {
    match hs.wait
    case Error => (hs, Returned(-1, false), false)
    case Fine => (hs, Running, true)
    case NeedFlush => if io.flush <= 0 then (hs, Returned(io.flush, false), false) else (hs, Running, true)
    case NeedServerHello => Reading(hs, io)
    case NeedMessage => Reading(hs, io)
    case NeedChangeCipherSpec =>
      (match io.open
       case Opened => (Acted(hs, OpenedChangeCipherSpec), Running, true)
       case Again => (hs, Running, false)
       case Blocked(code) => (hs, Returned(0 - code, false), false))
    case NeedX509Lookup => (hs.(wait := Fine), Returned(-1, false), false)
    case NeedPrivateKey => (hs.(wait := Fine), Returned(-1, false), false)
    case NeedCertificateVerify => (hs.(wait := Fine), Returned(-1, false), false)
    case EarlyReturn => (hs.(wait := Fine), Returned(1, true), false)
    case AnyTls13 => (hs, Returned(-1, false), false)
  }

  function Reading(hs: Hs, io: Io): (Hs, Returned, bool) {
    match io.open
    case Opened => (hs, Running, true)
    case Again => (hs, Running, false)
    case Blocked(code) => (hs, Returned(0 - code, false), false)
  }

  /** One round of ssl_run_handshake. */
  function Round(c: Config, hs: Hs, io: Io, world: nat -> Input, n: nat): (Hs, Returned, nat) {
    match Resolve(hs, io)
    case (hs1, ret, go) =>
      if !go then (hs1, ret, n)
      else
        match Machine(c, hs1, world, n)
        case (hs2, w, n') =>
          var hs3 := hs2.(wait := w);
          if w == Error then (hs3, Returned(-1, false), n')
          else if w == Fine then (hs3, Returned(1, false), n')
          else (hs3, Running, n')
  }

  /** Rounds one after the other, however they are spread over calls. */
  function Rounds(c: Config, hs: Hs, ios: seq<Io>, world: nat -> Input, n: nat): (Hs, nat)
    decreases |ios|
  {
    if ios == [] then (hs, n)
    else
      match Round(c, hs, ios[0], world, n)
      case (hs', ret, n') => Rounds(c, hs', ios[1..], world, n')
  }
}
