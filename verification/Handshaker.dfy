/** The client handshake carried out in place: each state's step changes the
    handshake's fields, and two loops drive it.  Every step keeps the order of
    acts, and says what it adds to it. */
module Handshaker {
  import opened Bytes
  import opened ClientHandshake
  import opened HandshakeSafety

  class ClientHs {
    const config: Config
    var state: State
    var wait: Wait
    var session: Session
    var ech: Ech
    var early: Early
    var neg: Negotiated
    var auth: ClientAuth
    ghost var log: seq<Act>

    ghost function View(): Hs
      reads this
    {
      Hs(state, wait, session, ech, early, neg, auth, log)
    }

    constructor (config: Config, hasSession: bool)
      ensures this.config == config && View() == Start(hasSession) && Sound(config, View())
    {
      this.config := config;
      var s := Start(hasSession);
      state, wait, session, ech, early, neg, auth, log :=
        s.state, s.wait, s.session, s.ech, s.early, s.neg, s.auth, s.log;
    }

    /** Nothing is waited for before a ClientHello is sent, and early data is offered
        only with a session, above TLS 1.2 and not in DTLS. */
    method StartConnectStep(i: Input) returns (w: Wait)
      requires Ready(View()) && state == StartConnect
      modifies this
      ensures (View(), w) == DoStartConnect(config, old(View()), i) && After(View(), w)
      ensures if w == NeedFlush then log == old(log) + [SentClientHello] else w == Error && log == old(log)
      ensures early.offered && w == NeedFlush ==> session.has && config.max13 && !config.isDtls
    {
      StartConnectAfter(config, View(), i);
      if i.fail != 0 {
        return Error;
      }
      var has := session.has && i.sessionUsable;
      session, ech := Session(has, false), Ech(i.echSelected, false);
      early := Early(config.max13 && !config.isDtls && has && i.earlyOffered, false);
      log := log + [SentClientHello];
      state := EnterEarlyData;
      return NeedFlush;
    }

    /** An early ChangeCipherSpec is sent only when early data was offered. */
    method EnterEarlyDataStep(i: Input) returns (w: Wait)
      requires Ready(View()) && state == EnterEarlyData
      modifies this
      ensures (View(), w) == DoEnterEarlyData(config, old(View()), i) && After(View(), w)
      ensures log != old(log) ==> log == old(log) + [SentChangeCipherSpec] && early.offered && !config.isDtls
      ensures state == EarlyReverifyServerCertificate ==> log != old(log)
    {
      EnterEarlyDataAfter(config, View(), i);
      if config.isDtls {
        state := ReadHelloVerifyRequest;
        return Wait.Fine;
      }
      if !early.offered {
        state := ReadServerHello;
        return Wait.Fine;
      }
      if i.fail == 1 {
        return Error;
      }
      log := log + [SentChangeCipherSpec];
      if i.fail != 0 {
        return Error;
      }
      state := EarlyReverifyServerCertificate;
      return Wait.Fine;
    }

    /** The early keys are released only after the certificate is verified again. */
    method EarlyReverifyStep(i: Input) returns (w: Wait)
      requires Ready(View()) && state == EarlyReverifyServerCertificate
      modifies this
      ensures (View(), w) == DoEarlyReverify(config, old(View()), i) && After(View(), w)
      ensures w == EarlyReturn <==> log != old(log)
      ensures w == EarlyReturn ==> log == old(log) + [InstalledEarlyKeys] && (config.reverifyOnResume ==> i.verify == VerifyOk)
    {
      EarlyReverifyAfter(config, View(), i);
      if config.reverifyOnResume {
        match i.verify {
          case VerifyOk =>
          case VerifyInvalid => return Error;
          case VerifyRetry => return NeedCertificateVerify;
        }
      }
      if i.fail != 0 {
        return Error;
      }
      early := early.(canWrite := true);
      log := log + [InstalledEarlyKeys];
      state := ReadServerHello;
      return EarlyReturn;
    }

    /** A second ClientHello answers a HelloVerifyRequest and nothing else. */
    method HelloVerifyRequestStep(i: Input) returns (w: Wait)
      requires Ready(View()) && state == ReadHelloVerifyRequest
      modifies this
      ensures (View(), w) == DoReadHelloVerifyRequest(old(View()), i) && After(View(), w)
      ensures w == NeedFlush <==> log == old(log) + [SentClientHello]
      ensures w == NeedFlush ==> i.msg == Some(HelloVerifyRequest)
      ensures w != NeedFlush ==> log == old(log)
    {
      HelloVerifyRequestAfter(View(), i);
      if i.msg.None? {
        return NeedMessage;
      }
      if i.msg.value != HelloVerifyRequest {
        state := ReadServerHello;
        return Wait.Fine;
      }
      if i.fail != 0 {
        return Error;
      }
      log := log + [SentClientHello];
      state := ReadServerHello;
      return NeedFlush;
    }

    /** Below TLS 1.3 there is no early data, ECH counts as rejected if it was
        offered, and then, or without a session, nothing is resumed. */
    method ServerHelloStep(i: Input) returns (w: Wait)
      requires Ready(View()) && state == ReadServerHello
      modifies this
      ensures (View(), w) == DoReadServerHello(config, old(View()), i) && After(View(), w)
      ensures log == old(log)
      ensures w == Wait.Fine && state != Tls13 ==>
                && !old(early.offered) && ech.rejected == (old(ech.rejected) || old(ech.selected))
                && (session.has ==> old(session.has) && !ech.rejected)
    {
      ServerHelloAfter(config, View(), i);
      if i.msg.None? {
        return NeedServerHello;
      }
      if i.msg.value != ServerHello || i.fail == 1 {
        return Error;
      }
      if i.version13 {
        neg := neg.(tls13 := true);
        state := Tls13;
        return Wait.Fine;
      }
      if early.offered {
        early := early.(canWrite := false);
        return Error;
      }
      ech := ech.(rejected := ech.rejected || ech.selected);
      w := ServerHello12Step(i);
    }

    /** A session is resumed only if one was offered, it fits the connection and ECH
        was not rejected; otherwise a new one is begun.  With TLS 1.3 enabled, a
        downgrade is refused. */
    method ServerHello12Step(i: Input) returns (w: Wait)
      requires state == ReadServerHello
      modifies this
      ensures (View(), w) == ReadServerHello12(config, old(View()), i)
      ensures log == old(log) && ech == old(ech)
      ensures w == Wait.Fine ==> session.making == !session.has && !(config.max13 && i.downgraded)
      ensures w == Wait.Fine && session.has ==> old(session.has) && i.resumable && i.emsMatches && !ech.rejected
    {
      if (config.max13 && i.downgraded) || i.fail == 2 {
        return Error;
      }
      if i.echoed && (!session.has || ech.rejected || !i.resumable) {
        return Error;
      }
      session := Session(i.echoed, !i.echoed);
      neg := Negotiated(false, i.version12, i.cipher, i.statusExpected, i.ticketExpected, i.alpn);
      if i.fail != 0 || (session.has && !i.emsMatches) {
        return Error;
      }
      if !session.has {
        state := ReadServerCertificate;
      } else if config.reverifyOnResume && neg.cipher.certAuth {
        state := ReverifyServerCertificate;
      } else {
        state := ReadSessionTicket;
      }
      return Wait.Fine;
    }

    /** TLS 1.3 ends before anything else is done. */
    method Tls13Step(i: Input) returns (w: Wait)
      requires Ready(View()) && state == Tls13
      modifies this
      ensures (View(), w) == DoTls13(old(View()), i) && After(View(), w)
      ensures log == old(log) && (w == Wait.Fine <==> state == FinishClientHandshake)
    {
      Tls13After(View(), i);
      if i.tls13Wait == Wait.Fine {
        state := FinishClientHandshake;
      }
      return i.tls13Wait;
    }

    /** A cipher that authenticates by certificate goes on only with one. */
    method ServerCertificateStep(i: Input) returns (w: Wait)
      requires Ready(View()) && state == ReadServerCertificate
      modifies this
      ensures (View(), w) == DoReadServerCertificate(old(View()), i) && After(View(), w)
      ensures log == old(log)
      ensures state == ReadCertificateStatus ==> neg.cipher.certAuth ==> i.msg == Some(Certificate)
    {
      CertificateAfter(View(), i);
      if neg.cipher.certAuth {
        if i.msg.None? {
          return NeedMessage;
        }
        if i.msg.value != Certificate || i.fail != 0 {
          return Error;
        }
      }
      state := ReadCertificateStatus;
      return Wait.Fine;
    }

    /** A status that was announced is waited for, but need not come. */
    method CertificateStatusStep(i: Input) returns (w: Wait)
      requires Ready(View()) && state == ReadCertificateStatus
      modifies this
      ensures (View(), w) == DoReadCertificateStatus(old(View()), i) && After(View(), w)
      ensures log == old(log)
      ensures state == VerifyServerCertificate ==> neg.statusExpected ==> i.msg.Some?
    {
      CertificateAfter(View(), i);
      if neg.statusExpected {
        if i.msg.None? {
          return NeedMessage;
        }
        if i.msg.value == CertificateStatus && i.fail != 0 {
          return Error;
        }
      }
      state := VerifyServerCertificate;
      return Wait.Fine;
    }

    /** There is no way on without a verified certificate, if the cipher needs one. */
    method VerifyStep(i: Input) returns (w: Wait)
      requires Ready(View()) && state == VerifyServerCertificate
      modifies this
      ensures (View(), w) == DoVerifyServerCertificate(old(View()), i) && After(View(), w)
      ensures state == ReadServerKeyExchange && neg.cipher.certAuth ==> log == old(log) + [VerifiedCertificate] && i.verify == VerifyOk
      ensures state != ReadServerKeyExchange ==> log == old(log) && w != Wait.Fine
    {
      VerifyAfter(View(), i);
      if neg.cipher.certAuth {
        match i.verify {
          case VerifyOk => log := log + [VerifiedCertificate];
          case VerifyInvalid => return Error;
          case VerifyRetry => return NeedCertificateVerify;
        }
      }
      state := ReadServerKeyExchange;
      return Wait.Fine;
    }

    /** Nor is a session resumed without it, where that is asked for. */
    method ReverifyStep(i: Input) returns (w: Wait)
      requires Ready(View()) && state == ReverifyServerCertificate
      modifies this
      ensures (View(), w) == DoReverifyServerCertificate(old(View()), i) && After(View(), w)
      ensures state == ReadSessionTicket ==> log == old(log) + [VerifiedCertificate] && i.verify == VerifyOk
      ensures state != ReadSessionTicket ==> log == old(log) && w != Wait.Fine
    {
      ReverifyAfter(View(), i);
      match i.verify {
        case VerifyOk => log := log + [VerifiedCertificate];
        case VerifyInvalid => return Error;
        case VerifyRetry => return NeedCertificateVerify;
      }
      state := ReadSessionTicket;
      return Wait.Fine;
    }

    /** A cipher that needs the key exchange message goes on only with it, and a
        message that is there is checked: it is noted if and only if it passed. */
    method ServerKeyExchangeStep(i: Input) returns (w: Wait)
      requires Ready(View()) && state == ReadServerKeyExchange
      modifies this
      ensures (View(), w) == DoReadServerKeyExchange(old(View()), i) && After(View(), w)
      ensures log == old(log) + if i.msg == Some(ServerKeyExchange) && i.fail == 0 then [CheckedServerKeyExchange] else []
      ensures state == ReadCertificateRequest <==>
                i.msg.Some? && (if i.msg.value == ServerKeyExchange then i.fail == 0 else !neg.cipher.needsServerKeyExchange)
    {
      ServerFlightAfter(View(), i);
      if i.msg.None? {
        return NeedMessage;
      }
      if i.msg.value != ServerKeyExchange {
        if neg.cipher.needsServerKeyExchange {
          return Error;
        }
      } else {
        if i.fail != 0 {
          return Error;
        }
        log := log + [CheckedServerKeyExchange];
      }
      state := ReadCertificateRequest;
      return Wait.Fine;
    }

    /** A client certificate is asked for only by a CertificateRequest, of a server
        that shows its own. */
    method CertificateRequestStep(i: Input) returns (w: Wait)
      requires Ready(View()) && state == ReadCertificateRequest
      modifies this
      ensures (View(), w) == DoReadCertificateRequest(old(View()), i) && After(View(), w)
      ensures log == old(log)
      ensures auth.requested && !old(auth.requested) ==> neg.cipher.certAuth && i.msg == Some(CertificateRequest)
    {
      ServerFlightAfter(View(), i);
      if neg.cipher.certAuth {
        if i.msg.None? {
          return NeedMessage;
        }
        if i.msg.value != ServerHelloDone {
          if i.msg.value != CertificateRequest || i.fail != 0 {
            return Error;
          }
          auth := auth.(requested := true);
        }
      }
      state := ReadServerHelloDone;
      return Wait.Fine;
    }

    /** The server's flight ends with ServerHelloDone and nothing behind it. */
    method ServerHelloDoneStep(i: Input) returns (w: Wait)
      requires Ready(View()) && state == ReadServerHelloDone
      modifies this
      ensures (View(), w) == DoReadServerHelloDone(old(View()), i) && After(View(), w)
      ensures log == old(log)
      ensures state == SendClientCertificate ==> i.msg == Some(ServerHelloDone) && !i.excess
    {
      ServerFlightAfter(View(), i);
      if i.msg.None? {
        return NeedMessage;
      }
      if i.msg.value != ServerHelloDone || i.fail != 0 || i.excess {
        return Error;
      }
      state := SendClientCertificate;
      return Wait.Fine;
    }

    /** A Certificate is sent only when asked for, and empty after ECH was rejected. */
    method ClientCertificateStep(i: Input) returns (w: Wait)
      requires Ready(View()) && state == SendClientCertificate
      modifies this
      ensures (View(), w) == DoSendClientCertificate(config, old(View()), i) && After(View(), w)
      ensures log != old(log) ==> log == old(log) + [SentClientCertificate] && auth.requested
      ensures w == Wait.Fine && auth.requested && auth.hasCert ==> !ech.rejected
    {
      ClientCertificateAfter(config, View(), i);
      if !auth.requested {
        state := SendClientKeyExchange;
        return Wait.Fine;
      }
      if !ech.rejected && config.hasCertCb {
        if i.certCb == 0 {
          return Error;
        }
        if i.certCb < 0 {
          return NeedX509Lookup;
        }
      }
      auth := auth.(hasCert := !ech.rejected && i.hasCert);
      if i.fail != 0 {
        return Error;
      }
      log := log + [SentClientCertificate];
      state := SendClientKeyExchange;
      return Wait.Fine;
    }

    /** The key exchange message goes out only to a server whose certificate, if it
        needs one, was verified. */
    method ClientKeyExchangeStep(i: Input) returns (w: Wait)
      requires Ready(View()) && state == SendClientKeyExchange
      modifies this
      ensures (View(), w) == DoSendClientKeyExchange(old(View()), i) && After(View(), w)
      ensures w == Wait.Fine ==> log == old(log) + [KeyExchange(View())]
      ensures log != old(log) && neg.cipher.certAuth ==> VerifiedCertificate in old(log)
    {
      KeyExchangeAfter(View(), i);
      if i.fail == 1 {
        return Error;
      }
      log := log + [KeyExchange(View())];
      if i.fail != 0 {
        return Error;
      }
      state := SendClientCertificateVerify;
      return Wait.Fine;
    }

    /** A client that sent a certificate signs, and no other does. */
    method CertificateVerifyStep(i: Input) returns (w: Wait)
      requires Ready(View()) && state == SendClientCertificateVerify
      modifies this
      ensures (View(), w) == DoSendClientCertificateVerify(old(View()), i) && After(View(), w)
      ensures log != old(log) ==> log == old(log) + [SentCertificateVerify] && auth.requested && auth.hasCert && i.sign == SignSuccess
      ensures state == SendClientFinished && auth.requested && auth.hasCert ==> log != old(log)
    {
      CertificateVerifyAfter(View(), i);
      if auth.requested && auth.hasCert {
        if i.fail != 0 {
          return Error;
        }
        match i.sign {
          case SignSuccess => log := log + [SentCertificateVerify];
          case SignFailure => return Error;
          case SignRetry => return NeedPrivateKey;
        }
      }
      state := SendClientFinished;
      return Wait.Fine;
    }

    /** ChangeCipherSpec, the new keys and Finished, in this order and for the first
        time; in a resumption after the server's. */
    method ClientFinishedStep(i: Input) returns (w: Wait)
      requires Ready(View()) && state == SendClientFinished
      modifies this
      ensures (View(), w) == DoSendClientFinished(old(View()), i) && After(View(), w)
      ensures w == NeedFlush ==>
                log == old(log) + [SentChangeCipherSpec] + [InstalledWriteKeys] + [SentClientFinished(session.has)]
      ensures InstalledWriteKeys !in old(log) && !FinishedSent(old(log)) && (session.has ==> VerifiedServerFinished in old(log))
      ensures w != NeedFlush ==> w == Error
    {
      FinishedReady(View());
      FinishedAfter(View(), i);
      if i.fail == 1 {
        return Error;
      }
      log := log + [SentChangeCipherSpec];
      if i.fail == 2 {
        return Error;
      }
      log := log + [InstalledWriteKeys];
      if i.fail != 0 {
        return Error;
      }
      log := log + [SentClientFinished(session.has)];
      state := FinishFlight;
      return NeedFlush;
    }

    /** A resumption is over with the server's Finished verified; false start needs a
        strong cipher and never follows a rejected ECH. */
    method FinishFlightStep(i: Input) returns (w: Wait)
      requires Ready(View()) && state == FinishFlight
      modifies this
      ensures (View(), w) == DoFinishFlight(config, old(View()), i) && After(View(), w)
      ensures w == EarlyReturn ==> log == old(log) + [ReturnedEarly] && !session.has && !ech.rejected && neg.cipher.ecdheAead
      ensures state == FinishClientHandshake ==> session.has && VerifiedServerFinished in log
      ensures w != Error ==> FinishedSent(log)
    {
      hide OrderOk, Verified, Nearer;
      FinishFlightAfter(config, View(), i);
      if session.has {
        state := FinishClientHandshake;
        return Wait.Fine;
      }
      if i.fail != 0 {
        return Error;
      }
      state := ReadSessionTicket;
      if config.falseStart && !config.isDtls && neg.tls12 && neg.cipher.ecdheAead && !ech.rejected
         && (config.anyAlpn || neg.alpn) {
        early := early.(canWrite := true);
        log := log + [ReturnedEarly];
        return EarlyReturn;
      }
      return Wait.Fine;
    }

    /** A ticket that was announced must come, and then a ChangeCipherSpec. */
    method SessionTicketStep(i: Input) returns (w: Wait)
      requires Ready(View()) && state == ReadSessionTicket
      modifies this
      ensures (View(), w) == DoReadSessionTicket(old(View()), i) && After(View(), w)
      ensures log == old(log) && (w == NeedChangeCipherSpec <==> state == ProcessChangeCipherSpec)
      ensures state == ProcessChangeCipherSpec && old(neg.ticketExpected) ==> i.msg == Some(NewSessionTicket)
    {
      hide OrderOk, Verified, Nearer;
      TicketAfter(View(), i);
      if neg.ticketExpected {
        if i.msg.None? {
          return NeedMessage;
        }
        if i.msg.value != NewSessionTicket || i.fail == 1 {
          return Error;
        }
        if i.emptyTicket {
          neg := neg.(ticketExpected := false);
        } else {
          if i.fail != 0 {
            return Error;
          }
          session := session.(making := true);
        }
      }
      state := ProcessChangeCipherSpec;
      return NeedChangeCipherSpec;
    }

    /** The read keys change directly after a ChangeCipherSpec, for the first time. */
    method ReadKeysStep(i: Input) returns (w: Wait)
      requires Ready(View()) && state == ProcessChangeCipherSpec
      modifies this
      ensures (View(), w) == DoProcessChangeCipherSpec(old(View()), i) && After(View(), w)
      ensures w == Wait.Fine ==> log == old(log) + [InstalledReadKeys]
      ensures EndsWith(old(log), OpenedChangeCipherSpec) && InstalledReadKeys !in old(log)
      ensures w != Wait.Fine ==> w == Error && log == old(log)
    {
      hide OrderOk, Verified, Nearer;
      ReadKeysAfter(View(), i);
      if i.fail != 0 {
        return Error;
      }
      log := log + [InstalledReadKeys];
      state := ReadServerFinished;
      return Wait.Fine;
    }

    /** The server's Finished is verified under the new read keys, for the first time. */
    method ServerFinishedStep(i: Input) returns (w: Wait)
      requires Ready(View()) && state == ReadServerFinished
      modifies this
      ensures (View(), w) == DoReadServerFinished(old(View()), i) && After(View(), w)
      ensures log != old(log) ==> log == old(log) + [VerifiedServerFinished] && i.msg == Some(Finished) && i.finishedMatches
      ensures InstalledReadKeys in old(log) && VerifiedServerFinished !in old(log)
      ensures w == Wait.Fine <==> state != ReadServerFinished
      ensures w == Wait.Fine ==> log != old(log) && !i.excess
    {
      hide OrderOk, Verified, Nearer;
      ServerFinishedAfter(View(), i);
      if i.msg.None? {
        return NeedMessage;
      }
      if i.msg.value != Finished || i.fail != 0 || !i.finishedMatches {
        return Error;
      }
      log := log + [VerifiedServerFinished];
      if i.excess {
        return Error;
      }
      state := if session.has then SendClientFinished else FinishClientHandshake;
      return Wait.Fine;
    }

    /** Success means that ECH was not rejected and that, below TLS 1.3, both sides
        have new keys and both Finished messages are there. */
    method FinishStep(i: Input) returns (w: Wait)
      requires Ready(View()) && state == FinishClientHandshake
      modifies this
      ensures (View(), w) == DoFinishClientHandshake(old(View()), i) && After(View(), w)
      ensures w == Wait.Fine <==> state == Done
      ensures w == Wait.Fine ==> !ech.rejected && log == old(log) + [Completed(neg.tls13)]
      ensures w == Wait.Fine && !neg.tls13 ==>
                InstalledReadKeys in log && VerifiedServerFinished in log && InstalledWriteKeys in log && FinishedSent(log)
    {
      hide OrderOk, Verified, Nearer;
      EndAfter(View(), i);
      if ech.rejected || i.fail != 0 {
        return Error;
      }
      session := session.(making := false);
      log := log + [Completed(neg.tls13)];
      state := Done;
      return Wait.Fine;
    }

    method OneStep(i: Input) returns (w: Wait)
      requires Ready(View()) && state != Done
      modifies this
      ensures (View(), w) == Step(config, old(View()), i) && After(View(), w)
    {
      hide DoStartConnect, DoEnterEarlyData, DoEarlyReverify, DoReadHelloVerifyRequest, DoReadServerHello, DoTls13,
           DoReadServerCertificate, DoReadCertificateStatus, DoVerifyServerCertificate, DoReverifyServerCertificate,
           DoReadServerKeyExchange, DoReadCertificateRequest, DoReadServerHelloDone, DoSendClientCertificate,
           DoSendClientKeyExchange, DoSendClientCertificateVerify, DoSendClientFinished, DoFinishFlight,
           DoReadSessionTicket, DoProcessChangeCipherSpec, DoReadServerFinished, DoFinishClientHandshake, Nearer,
           Ready, After;
      match state {
        case StartConnect => w := StartConnectStep(i);
        case EnterEarlyData => w := EnterEarlyDataStep(i);
        case EarlyReverifyServerCertificate => w := EarlyReverifyStep(i);
        case ReadHelloVerifyRequest => w := HelloVerifyRequestStep(i);
        case ReadServerHello => w := ServerHelloStep(i);
        case Tls13 => w := Tls13Step(i);
        case ReadServerCertificate => w := ServerCertificateStep(i);
        case ReadCertificateStatus => w := CertificateStatusStep(i);
        case VerifyServerCertificate => w := VerifyStep(i);
        case ReverifyServerCertificate => w := ReverifyStep(i);
        case ReadServerKeyExchange => w := ServerKeyExchangeStep(i);
        case ReadCertificateRequest => w := CertificateRequestStep(i);
        case ReadServerHelloDone => w := ServerHelloDoneStep(i);
        case SendClientCertificate => w := ClientCertificateStep(i);
        case SendClientKeyExchange => w := ClientKeyExchangeStep(i);
        case SendClientCertificateVerify => w := CertificateVerifyStep(i);
        case SendClientFinished => w := ClientFinishedStep(i);
        case FinishFlight => w := FinishFlightStep(i);
        case ReadSessionTicket => w := SessionTicketStep(i);
        case ProcessChangeCipherSpec => w := ReadKeysStep(i);
        case ReadServerFinished => w := ServerFinishedStep(i);
        case FinishClientHandshake => w := FinishStep(i);
      }
    }

    /** ssl_client_handshake, with the answers of the world from the n-th on; it
        never spins. */
    method ClientHandshake(world: nat -> Input, n: nat) returns (w: Wait, n': nat)
      requires Ready(View())
      modifies this
      ensures (View(), w, n') == Machine(config, old(View()), world, n)
      ensures After(View(), w) && (w == Wait.Fine <==> state == Done)
    {
      hide Step, OrderOk, Stage;
      n' := n;
      while state != Done
        invariant Ready(View())
        invariant Machine(config, View(), world, n') == Machine(config, old(View()), world, n)
        decreases Rank(View())
      {
        w := OneStep(world(n'));
        n' := n' + 1;
        if w != Wait.Fine {
          return;
        }
      }
      w := Wait.Fine;
    }

    /** One round of ssl_run_handshake: what is claimed between rounds is kept, and
        success means that ECH was not rejected, that below TLS 1.3 the server was
        authenticated, and that the handshake is at its end, unless the return is
        an early one. */
    method RunRound(io: Io, world: nat -> Input, n: nat) returns (ret: Returned, n': nat)
      requires Sound(config, View())
      modifies this
      ensures (View(), ret, n') == Round(config, old(View()), io, world, n)
      ensures Sound(config, View()) && SuccessOk(config, View(), ret)
      ensures ret.Returned? && ret.code == 1 ==> ret.early || state == Done
      ensures old(wait) == Error ==> View() == old(View()) && ret == Returned(-1, false)
    {
      RoundSound(config, View(), io, world, n);
      hide Machine, Between, Proven, SuccessOk;
      n' := n;
      var go;
      ret, go := ResolveWait(io);
      if !go {
        return;
      }
      var w;
      w, n' := ClientHandshake(world, n);
      wait := w;
      if w == Error {
        return Returned(-1, false), n';
      }
      if w == Wait.Fine {
        return Returned(1, false), n';
      }
      return Running, n';
    }

    /** Whatever is waited for: the machine goes on only when it is ready for its
        next step, a ChangeCipherSpec is noted exactly when it was opened, and
        otherwise at most the wait is cleared. */
    method ResolveWait(io: Io) returns (ret: Returned, go: bool)
      requires Between(View())
      modifies this
      ensures (View(), ret, go) == Resolve(old(View()), io)
      ensures if go then Ready(View()) else Between(View())
      ensures go <==> ret == Running && (old(wait) in {NeedServerHello, NeedMessage, NeedChangeCipherSpec} ==> io.open == Opened)
      ensures log == old(log) + if go && old(wait) == NeedChangeCipherSpec then [OpenedChangeCipherSpec] else []
      ensures View() == old(View()).(log := log, wait := wait) && (wait == old(wait) || (wait == Wait.Fine && ret.Returned?))
      ensures ret.Returned? && ret.code > 0 ==> ret == Returned(1, true) && old(wait) == EarlyReturn && !ech.rejected
    {
      ResolveReady(View(), io);
      hide Ready, Between;
      match wait {
        case Error => return Returned(-1, false), false;
        case Fine => return Running, true;
        case NeedFlush =>
          if io.flush <= 0 {
            return Returned(io.flush, false), false;
          }
          return Running, true;
        case NeedServerHello => ret, go := ReadRecord(io);
        case NeedMessage => ret, go := ReadRecord(io);
        case NeedChangeCipherSpec =>
          ret, go := ReadRecord(io);
          if go {
            log := log + [OpenedChangeCipherSpec];
          }
        case NeedX509Lookup =>
          wait := Wait.Fine;
          return Returned(-1, false), false;
        case NeedPrivateKey =>
          wait := Wait.Fine;
          return Returned(-1, false), false;
        case NeedCertificateVerify =>
          wait := Wait.Fine;
          return Returned(-1, false), false;
        case EarlyReturn =>
          wait := Wait.Fine;
          return Returned(1, true), false;
        case AnyTls13 => return Returned(-1, false), false;
      }
    }

    method ReadRecord(io: Io) returns (ret: Returned, go: bool)
      ensures (View(), ret, go) == Reading(View(), io)
    {
      match io.open {
        case Opened => return Running, true;
        case Again => return Running, false;
        case Blocked(code) => return Returned(0 - code, false), false;
      }
    }

    /** ssl_run_handshake: rounds until one of them returns or there is nothing
        more to go on. */
    method RunHandshake(ios: seq<Io>, world: nat -> Input, n: nat) returns (ret: Returned, used: nat, n': nat)
      requires Sound(config, View())
      modifies this
      ensures Sound(config, View()) && SuccessOk(config, View(), ret)
      ensures ret.Returned? && ret.code == 1 ==> ret.early || state == Done
      ensures used <= |ios| && (ret.Running? ==> used == |ios|)
      ensures (View(), n') == Rounds(config, old(View()), ios[..used], world, n)
      ensures forall k | 0 <= k < used :: ReturnOf(config, old(View()), ios, k, world, n) == if k + 1 == used then ret else Running
    {
      hide Round, Sound;
      used, n', ret := 0, n, Running;
      while used < |ios|
        invariant used <= |ios| && ret == Running && Sound(config, View())
        invariant (View(), n') == Rounds(config, old(View()), ios[..used], world, n)
        invariant forall k | 0 <= k < used :: ReturnOf(config, old(View()), ios, k, world, n) == Running
      {
        RoundsSnoc(config, old(View()), ios, used, world, n);
        ret, n' := RunRound(ios[used], world, n');
        used := used + 1;
        if ret.Returned? {
          return;
        }
      }
    }
  }

  /** What round k of a run returns. */
  function ReturnOf(c: Config, hs: Hs, ios: seq<Io>, k: nat, world: nat -> Input, n: nat): Returned
    requires k < |ios|
  {
    match Rounds(c, hs, ios[..k], world, n)
    case (hs1, n1) => Round(c, hs1, ios[k], world, n1).1
  }

  lemma {:induction false} RoundsSnoc(c: Config, hs: Hs, ios: seq<Io>, k: nat, world: nat -> Input, n: nat)
    requires k < |ios|
    ensures var (hs1, n1) := Rounds(c, hs, ios[..k], world, n);
            var (hs2, ret, n2) := Round(c, hs1, ios[k], world, n1);
            Rounds(c, hs, ios[..k + 1], world, n) == (hs2, n2)
    decreases k
  {
    hide Round;
    if k > 0 {
      var (hs1, ret, n1) := Round(c, hs, ios[0], world, n);
      assert ios[..k][1..] == ios[1..][..k - 1] && ios[..k + 1][1..] == ios[1..][..k];
      RoundsSnoc(c, hs1, ios[1..], k - 1, world, n1);
    }
  }
}
