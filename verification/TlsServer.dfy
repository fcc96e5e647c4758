/** The server up to TLS 1.2 (handshake_server.cc): every do_* step and the
    driver. What parsing, extensions, callbacks, the session cache and
    cryptography come to is an input, `e`, and with it every step is determined;
    TLS 1.3 is a step that ends the handshake or not. `ms` are the messages the
    step passes, taken or added. */
module TlsServer {
  import opened Prelude
  import opened TlsTranscript
  import opened TlsScript
  import opened TlsCore
  import opened TlsServerSide

  ghost function SideOf(hs: Hs): Side
    reads hs`serverState, hs`session, hs`known, hs`transcript
  {
    Side(hs.serverState, hs.session, hs.known, hs.transcript)
  }

  ghost predicate ServerValid(hs: Hs)
    reads hs`tls13, hs`serverState, hs`session, hs`known, hs`transcript, hs`inbox, hs`flight, hs`log,
          hs`channel
  {
    && hs.isServer
    && if hs.tls13 then
         hs.serverState == ServerTls13 || hs.serverState == FinishServerHandshake || hs.serverState == ServerDone
       else
         && hs.Consistent() && Settled(SideOf(hs))
         && (hs.serverState == SelectCertificate || hs.serverState == SelectParameters ==> HelloPending(hs))
  }

  /** The ClientHello is looked at several times before it is taken. */
  ghost predicate HelloPending(hs: Hs)
    reads hs`inbox
  {
    hs.inbox != [] && hs.inbox[0].kind == ClientHello
  }

  /** A step may run: the flight is not half written. */
  ghost predicate Ready(hs: Hs, s: ServerState)
    reads hs
  {
    ServerValid(hs) && hs.serverState == s && hs.offset == 0
  }

  lemma Entered(hs: Hs, s: ServerState)
    requires Ready(hs, s) && s != ServerTls13 && s != FinishServerHandshake && s != ServerDone
    ensures hs.isServer && !hs.tls13 && hs.offset == 0 && hs.Consistent() && hs.serverState == s
    ensures ServersTurn(hs.transcript) == ServerNext(s, hs.session)
    ensures s == SelectCertificate || s == SelectParameters ==> HelloPending(hs)
  {
  }

  lemma EnteredFull(hs: Hs, s: ServerState)
    requires Ready(hs, s) && FullOnly(s)
    ensures !hs.session && hs.known.cipher.Some?
  {
  }

  /** Nothing is hashed yet. */
  lemma EnteredStart(hs: Hs, s: ServerState)
    requires Ready(hs, s) && s == SelectParameters
    ensures hs.transcript == [] && !hs.session && hs.known.cipher.Some? && !hs.known.certRequest
  {
    AtStart(SideOf(hs));
  }

  /** What a step goes by besides its environment. */
  datatype View = View(
    side: Side, version: nat, status: bool, ticket: bool, localCert: bool, inbox: seq<Message>, flight: seq<Item>)
  {
    predicate Comes(kind: Kind) {
      inbox != [] && inbox[0].kind == kind
    }
  }

  ghost function ViewOf(hs: Hs): View
    reads hs`serverState, hs`session, hs`known, hs`transcript, hs`inbox, hs`flight, hs`version,
          hs`certificateStatusExpected, hs`ticketExpected, hs`localCert
  {
    View(SideOf(hs), hs.version, hs.certificateStatusExpected, hs.ticketExpected, hs.localCert, hs.inbox, hs.flight)
  }

  /** The handshake stands where it stood in x, though the message may be hashed. */
  ghost predicate StandsAt(hs: Hs, x: View)
    reads hs`serverState, hs`session, hs`known, hs`transcript, hs`inbox, hs`flight
  {
    && hs.serverState == x.side.s && hs.session == x.side.resumed && hs.known == x.side.f
    && (hs.transcript == x.side.t || (x.inbox != [] && hs.transcript == x.side.t + [x.inbox[0]]))
    && hs.inbox == x.inbox && hs.flight == x.flight
  }

  /** The next message is out of place: not of the one kind that may come next,
      a CertificateVerify or a Finished over another transcript. */
  predicate Refuses(x: View) {
    && x.inbox != []
    && var m := x.inbox[0];
       match x.side.s
       case ReadClientHello => m.kind != ClientHello
       case ReadClientCertificate => x.side.f.certRequest && m.kind != Certificate
       case ReadClientKeyExchange => m.kind != ClientKeyExchange
       case ReadClientCertificateVerify =>
         x.side.f.peerCerts > 0 && m != Message(CertificateVerify, Signed(x.side.t))
       case ReadNextProto => x.side.f.nextProtoSeen && m.kind != NextProto
       case ReadChannelId => x.side.f.channelIdValid && m.kind != ChannelId
       case ReadClientFinished => m != FinishedOf(false, x.side.t)
       case _ => false
  }

  /** Nothing goes wrong outside the machine, a certificate is there to be sent,
      and one that is insisted on comes. */
  predicate Untroubled(x: View, e: Env) {
    && Obliging(e)
    && (x.side.s == SendServerCertificate && CertAuth(x.side) ==> x.localCert)
    && (x.side.s == ReadClientCertificate && e.failIfNoPeerCert ==> e.certs > 0)
  }

  /** Then a step fails only for what the next message is. */
  predicate Ordinary(w: Wait, x: View, e: Env) {
    Untroubled(x, e) ==> if w == Error then Refuses(x) else w == Ok || w == Flush || Reads(w)
  }

  // The states, in the order of a full handshake.

  predicate InHello(s: ServerState) {
    s == StartAccept || s == ReadClientHello
  }

  predicate InSelection(s: ServerState) {
    s == SelectCertificate || s == SelectParameters
  }

  predicate InFirstFlight(s: ServerState) {
    s == SendServerHello || s == SendServerCertificate || s == SendServerKeyExchange || s == SendServerHelloDone
  }

  predicate InClientFlight(s: ServerState) {
    || s == ReadClientCertificate || s == VerifyClientCertificate || s == ReadClientKeyExchange
    || s == ReadClientCertificateVerify
  }

  predicate InReadFinish(s: ServerState) {
    || s == ReadChangeCipherSpecState || s == ServerProcessChangeCipherSpec || s == ReadNextProto
    || s == ReadChannelId || s == ReadClientFinished
  }

  // What makes each step fail.

  predicate ReadHelloFails(x: View, e: Env) {
    && x.inbox != []
    && (|| !x.Comes(ClientHello)
        || (!e.handoff
            && (|| Unparsed in e.faults
                || (!e.later
                    && (|| CallbackFailed in e.faults || VersionRefused in e.faults
                        || CompressionRefused in e.faults || ExtensionsRefused in e.faults)))))
  }

  predicate SelectCertificateFails(x: View, e: Env) {
    && x.inbox != []
    && (|| CallbackFailed in e.faults
        || (!e.later
            && (|| CertificateUnselected in e.faults
                || (x.version < TLS1_3 && (Unparsed in e.faults || e.cipher.None?)))))
  }

  predicate Pends(w: Wait) {
    w == PendingSession || w == PendingTicket
  }

  predicate SessionFails(e: Env) {
    && !Pends(e.lookup)
    && (|| e.lookup != Ok || SecretsMisfit in e.faults || ConnectionRejected in e.faults
        || (!e.resumable && NoSession in e.faults))
  }

  /** A certificate is asked for in a full handshake with certificate ciphers,
      as configured. */
  predicate AsksForCertificate(resumed: bool, c: Suite, channelId: bool, e: Env) {
    !resumed && c.CertAuth() && e.verifyPeer && !(e.unlessChannelId && channelId)
  }

  predicate SelectParametersFails(x: View, e: Env) {
    && x.inbox != []
    && (|| Unparsed in e.faults || SessionFails(e)
        || (!Pends(e.lookup) && (AlpnRefused in e.faults || Unhashed in e.faults)))
  }

  predicate SendHelloFails(e: Env) {
    NoRandom in e.faults || Unadded in e.faults
  }

  /** Whether a ServerKeyExchange is to be sent. */
  predicate SendsParameters(c: Suite, e: Env) {
    c.RequiresServerKeyExchange() || (c.auth == APsk && e.pskHint)
  }

  predicate AddCertificateFails(x: View, e: Env) {
    CertAuth(x.side) && (!x.localCert || Unadded in e.faults)
  }

  predicate SendCertificateFails(x: View, e: Env) {
    || AddCertificateFails(x, e)
    || (x.side.f.cipher.Some? && SendsParameters(x.side.f.cipher.value, e) && ParamsRefused in e.faults)
  }

  lemma SendsWhatIsRequired(v: Side, e: Env)
    requires v.f.cipher.Some?
    ensures RequiresKeyExchange(v) ==> SendsParameters(v.f.cipher.value, e)
    ensures SendsParameters(v.f.cipher.value, e) ==> RequiresKeyExchange(v) || v.f.cipher.value.auth == APsk
  {
  }

  predicate SendKeyExchangeFails(x: View, e: Env) {
    && x.side.f.serverParams
    && if CertAuth(x.side) then SigningFailed in e.faults || (!e.later && Unadded in e.faults)
       else Unadded in e.faults
  }

  predicate CertificateFails(x: View, e: Env) {
    && x.side.f.certRequest && x.inbox != []
    && (|| !x.Comes(Certificate) || Unhashed in e.faults || Unparsed in e.faults
        || (e.certs == 0 && e.failIfNoPeerCert))
  }

  predicate KeyExchangeFails(x: View, e: Env) {
    && x.side.f.cipher.Some? && x.inbox != []
    && var c := x.side.f.cipher.value;
       || !x.Comes(ClientKeyExchange) || (c.auth == APsk && IdentityRefused in e.faults) || Unparsed in e.faults
       || (!(c.mkey == KRsa && e.later)
           && (SecretsFailed in e.faults || Unhashed in e.faults || Underived in e.faults))
  }

  predicate VerifyFails(x: View, e: Env) {
    && x.side.f.peerCerts > 0 && x.inbox != []
    && (|| x.inbox[0] != Message(CertificateVerify, Signed(x.side.t)) || Unparsed in e.faults
        || Unhashed in e.faults)
  }

  predicate NextProtoFails(x: View, e: Env) {
    && x.side.f.nextProtoSeen && x.inbox != []
    && (!x.Comes(NextProto) || Unhashed in e.faults || Unparsed in e.faults)
  }

  predicate ChannelIdFails(x: View, e: Env) {
    && x.side.f.channelIdValid && x.inbox != []
    && (!x.Comes(ChannelId) || BadSignature in e.faults || Unhashed in e.faults)
  }

  predicate FinishedFails(x: View, e: Env) {
    && x.inbox != []
    && (|| x.inbox[0] != FinishedOf(false, x.side.t) || Unhashed in e.faults || FinishedMisfit in e.faults
        || (!x.side.resumed && x.side.f.channelIdValid && HashesUnrecorded in e.faults))
  }

  predicate SendFinishedFails(x: View, e: Env) {
    || (x.ticket && Unencrypted in e.faults)
    || CcsUnadded in e.faults || NoKeys in e.faults || Unlogged in e.faults || Unadded in e.faults
  }

  predicate Fails(x: View, e: Env) {
    match x.side.s
    case StartAccept => false
    case ReadClientHello => ReadHelloFails(x, e)
    case SelectCertificate => SelectCertificateFails(x, e)
    case ServerTls13 => e.tls13 == Error
    case SelectParameters => SelectParametersFails(x, e)
    case SendServerHello => SendHelloFails(e)
    case SendServerCertificate => SendCertificateFails(x, e)
    case SendServerKeyExchange => SendKeyExchangeFails(x, e)
    case SendServerHelloDone => Unadded in e.faults
    case ReadClientCertificate => CertificateFails(x, e)
    case VerifyClientCertificate => x.side.f.peerCerts > 0 && e.verdict == Invalid
    case ReadClientKeyExchange => KeyExchangeFails(x, e)
    case ReadClientCertificateVerify => VerifyFails(x, e)
    case ReadChangeCipherSpecState => false
    case ServerProcessChangeCipherSpec => NoKeys in e.faults
    case ReadNextProto => NextProtoFails(x, e)
    case ReadChannelId => ChannelIdFails(x, e)
    case ReadClientFinished => FinishedFails(x, e)
    case SendServerFinished => SendFinishedFails(x, e)
    case FinishServerHandshake => false
    case ServerDone => false
  }

  lemma OnlyReadsRefuse(x: View, e: Env)
    ensures Fails(x, e) && Untroubled(x, e) ==>
              || x.side.s == ReadClientHello || InClientFlight(x.side.s) || InReadFinish(x.side.s)
              || x.side.s == ServerTls13
  {
  }

  /** A step that waits for the application was told to. */
  predicate Asked(w: Wait, e: Env) {
    match w
    case X509Lookup => e.later
    case CertificateSelectionPending => e.later
    case PrivateKeyOperation => e.later
    case VerifyPending => e.verdict == Undecided
    case Handoff => e.handoff
    case PendingSession => e.lookup == PendingSession
    case PendingTicket => e.lookup == PendingTicket
    case ChannelIdLookup => false
    case EarlyReturn => false
    case _ => true
  }

  /** Without faults a step fails only for what the next message is. */
  lemma FailsOrdinary(w: Wait, x: View, e: Env)
    requires w == Error ==> Fails(x, e)
    requires Asked(w, e)
    ensures x.side.s != ServerTls13 ==> Ordinary(w, x, e)
  {
  }

  // ----- the hellos -----

  method DoStartAccept(hs: Hs, e: Env) returns (w: Wait, ghost ms: seq<Message>)
    requires Ready(hs, StartAccept)
    modifies hs`serverState
    ensures w == Ok
    ensures w == Ok ==> hs.Consistent() && Move(old(SideOf(hs)), SideOf(hs), ms)
  {
    hide Ready, ServerValid, Settled, Hs.Accounted, Hs.Consistent, Hs.Hashed, ServersTurn;
    Entered(hs, StartAccept);
    ms := [];
    hs.serverState := ReadClientHello;
    return Ok, [];
  }

  /** The message stays in the inbox, and out of the transcript, until the
      parameters are selected. */
  method DoReadClientHello(hs: Hs, e: Env) returns (w: Wait, ghost ms: seq<Message>)
    requires Ready(hs, ReadClientHello)
    modifies hs`serverState, hs`version, hs`known, hs`certificateStatusExpected
    ensures w == Ok || w == Error || w == ReadMessage || w == Handoff || w == CertificateSelectionPending
    ensures w == Ok ==> hs.Consistent() && Move(old(SideOf(hs)), SideOf(hs), ms)
    ensures w == ReadMessage <==> old(hs.inbox) == []
    ensures w == ReadMessage ==> unchanged(hs)
    ensures w == Handoff ==> unchanged(hs)
    ensures w == CertificateSelectionPending ==> unchanged(hs)
    ensures w == Ok ==> HelloPending(hs)
    ensures w == Error <==> ReadHelloFails(old(ViewOf(hs)), e)
    ensures w == Handoff <==> old(hs.Comes(ClientHello)) && e.handoff
    ensures w == CertificateSelectionPending ==> e.later
    ensures w == Error && Obliging(e) ==> StandsAt(hs, old(ViewOf(hs)))
    ensures w == Ok ==> !e.handoff && !e.later && hs.version == e.version
    ensures w == Ok ==> hs.known == old(hs.known).(nextProtoSeen := e.nextProto, channelIdValid := e.channelId)
    ensures w == Ok ==> hs.certificateStatusExpected == e.status
  {
    hide Ready, ServerValid, Settled, Hs.Accounted, Hs.Consistent, Hs.Hashed, ServersTurn;
    Entered(hs, ReadClientHello);
    ms := [];
    var msg := hs.GetMessage();
    if msg.None? {
      return ReadMessage, [];
    }
    if msg.value.kind != ClientHello {
      return Error, [];
    }
    if e.handoff {
      return Handoff, [];
    }
    if Unparsed in e.faults {
      return Error, [];
    }
    if e.later {
      return CertificateSelectionPending, [];
    }
    if CallbackFailed in e.faults || VersionRefused in e.faults {
      return Error, [];
    }
    if CompressionRefused in e.faults || ExtensionsRefused in e.faults {
      return Error, [];
    }
    hs.version := e.version;
    hs.known := hs.known.(nextProtoSeen := e.nextProto, channelIdValid := e.channelId);
    hs.certificateStatusExpected := e.status;
    hs.serverState := SelectCertificate;
    return Ok, [];
  }

  /** The cipher is ssl3_choose_cipher's (module CipherChoice). */
  method DoSelectCertificate(hs: Hs, e: Env) returns (w: Wait, ghost ms: seq<Message>)
    requires Ready(hs, SelectCertificate)
    modifies hs`serverState, hs`tls13, hs`known, hs`localCert
    ensures w == Ok || w == Error || w == ReadMessage || w == X509Lookup
    ensures w == Ok && !hs.tls13 ==> hs.Consistent() && Move(old(SideOf(hs)), SideOf(hs), ms)
    ensures w == ReadMessage <==> old(hs.inbox) == []
    ensures w == ReadMessage ==> unchanged(hs)
    ensures w == X509Lookup ==> unchanged(hs)
    ensures w == Ok ==> (hs.tls13 <==> hs.version >= TLS1_3)
    ensures w == Ok && hs.tls13 ==> hs.serverState == ServerTls13
    ensures w == Error <==> SelectCertificateFails(old(ViewOf(hs)), e)
    ensures w == X509Lookup ==> e.later
    ensures w == Ok ==> !e.later && hs.localCert == e.localCert && (!hs.tls13 ==> hs.known.cipher == e.cipher)
  {
    hide Ready, ServerValid, Settled, Hs.Accounted, Hs.Consistent, Hs.Hashed, ServersTurn;
    Entered(hs, SelectCertificate);
    ms := [];
    var msg := hs.GetMessage();
    if msg.None? {
      return ReadMessage, [];
    }
    if CallbackFailed in e.faults {
      return Error, [];
    }
    if e.later {
      return X509Lookup, [];
    }
    hs.localCert := e.localCert;
    if CertificateUnselected in e.faults {
      return Error, [];
    }
    if hs.version >= TLS1_3 {
      hs.serverState, hs.tls13 := ServerTls13, true;
      return Ok, [];
    }
    if Unparsed in e.faults || e.cipher.None? {
      return Error, [];
    }
    hs.known := hs.known.(cipher := e.cipher);
    hs.serverState := SelectParameters;
    return Ok, [];
  }

  /** The TLS 1.3 machine is opaque. */
  method DoTls13(hs: Hs, e: Env) returns (w: Wait)
    requires Ready(hs, ServerTls13)
    modifies hs`serverState
    ensures w == e.tls13 && hs.tls13
    ensures hs.serverState == if w == Ok then FinishServerHandshake else ServerTls13
  {
    w := e.tls13;
    if w == Ok {
      hs.serverState := FinishServerHandshake;
    }
  }

  /** ssl_get_prev_session and what follows from it: resume, or start a session
      and decide whether to ask for a certificate. */
  method SelectSession(hs: Hs, e: Env) returns (w: Wait)
    requires !hs.session && hs.known.cipher.Some? && !hs.known.certRequest
    modifies hs`session, hs`ticketExpected, hs`known
    ensures w == Ok || w == Error || Pends(w)
    ensures hs.known == old(hs.known).(certRequest := hs.known.certRequest)
    ensures w == Error <==> SessionFails(e)
    ensures Pends(w) <==> Pends(e.lookup)
    ensures Pends(w) ==> w == e.lookup && unchanged(hs)
    ensures w == Ok ==> hs.session == e.resumable && hs.ticketExpected == e.ticket
    ensures w == Ok ==>
              hs.known.certRequest
              == AsksForCertificate(hs.session, hs.known.cipher.value, hs.known.channelIdValid, e)
    ensures w == Ok && hs.known.certRequest ==> !hs.session && hs.known.cipher.value.CertAuth()
  {
    if Pends(e.lookup) {
      return e.lookup;
    }
    if e.lookup != Ok || SecretsMisfit in e.faults {
      return Error;
    }
    hs.session, hs.ticketExpected := e.resumable, e.ticket;
    if (!hs.session && NoSession in e.faults) || ConnectionRejected in e.faults {
      return Error;
    }
    if !hs.session {
      var request := e.verifyPeer && !(e.unlessChannelId && hs.known.channelIdValid);
      hs.known := hs.known.(certRequest := request && hs.known.cipher.value.CertAuth());
    }
    w := Ok;
  }

  lemma HelloTakenMoves(v: Side, resumed: bool, request: bool, m: Message)
    requires v.s == SelectParameters && m.kind == ClientHello && (request ==> !resumed && CertAuth(v))
    ensures Move(v, Side(SendServerHello, resumed, v.f.(certRequest := request), [m]), [m])
  {
  }

  /** The ClientHello read before is parsed again and now hashed. */
  method DoSelectParameters(hs: Hs, e: Env) returns (w: Wait, ghost ms: seq<Message>)
    requires Ready(hs, SelectParameters)
    modifies hs`serverState, hs`session, hs`ticketExpected, hs`known, hs`transcript, hs`inbox, hs`log
    ensures w == Ok || w == Error || w == ReadMessage || Pends(w)
    ensures w == Ok ==> hs.Consistent() && Move(old(SideOf(hs)), SideOf(hs), ms)
    ensures w == Ok ==> old(hs.inbox) == ms + hs.inbox
    ensures w == ReadMessage <==> old(hs.inbox) == []
    ensures w == ReadMessage ==> unchanged(hs)
    ensures Pends(w) ==> w == e.lookup && unchanged(hs)
    ensures w == Error <==> SelectParametersFails(old(ViewOf(hs)), e)
    ensures w == Ok ==> hs.session == e.resumable && hs.ticketExpected == e.ticket
    ensures w == Ok ==>
              && hs.known.cipher.Some?
              && hs.known.certRequest
                 == AsksForCertificate(hs.session, hs.known.cipher.value, hs.known.channelIdValid, e)
  {
    hide Ready, ServerValid, Settled, Hs.Accounted, Hs.Consistent, Hs.Hashed, ServersTurn;
    hide AsksForCertificate, SessionFails, Move;
    Entered(hs, SelectParameters);
    ms := [];
    EnteredStart(hs, SelectParameters);
    ghost var v := SideOf(hs);
    var msg := hs.GetMessage();
    if msg.None? {
      return ReadMessage, [];
    }
    if Unparsed in e.faults {
      return Error, [];
    }
    w := SelectSession(hs, e);
    if w != Ok {
      return w, [];
    }
    if AlpnRefused in e.faults {
      return Error, [];
    }
    var hashed := hs.HashMessage(e);
    if !hashed {
      return Error, [];
    }
    hs.NextMessage();
    assert hs.transcript == [] + [msg.value] == [msg.value];
    hs.serverState := SendServerHello;
    HelloTakenMoves(v, hs.session, hs.known.certRequest, msg.value);
    return Ok, [msg.value];
  }

  method DropChannelId(hs: Hs, e: Env)
    requires hs.known.cipher.Some?
    modifies hs`known
    ensures hs.known == old(hs.known).(channelIdValid := hs.known.channelIdValid)
    ensures hs.known.channelIdValid <==>
              old(hs.known).channelIdValid && hs.known.cipher.value.mkey == KEcdhe && (hs.session ==> e.hashesRecorded)
  {
    if hs.known.channelIdValid && hs.known.cipher.value.mkey != KEcdhe {
      hs.known := hs.known.(channelIdValid := false);
    }
    if hs.session && !e.hashesRecorded {
      hs.known := hs.known.(channelIdValid := false);
    }
  }

  lemma SuiteChosen(hs: Hs)
    requires Ready(hs, SendServerHello)
    ensures hs.known.cipher.Some?
  {
  }

  /** Channel ID is dropped without ECDHE, or if the session has no hashes for it. */
  method DoSendServerHello(hs: Hs, e: Env) returns (w: Wait, ghost ms: seq<Message>)
    requires Ready(hs, SendServerHello)
    modifies hs`serverState, hs`known, hs`transcript, hs`flight, hs`log
    ensures w == Ok || w == Error
    ensures w == Ok ==> hs.Consistent() && Move(old(SideOf(hs)), SideOf(hs), ms)
    ensures w == Ok ==> hs.flight == old(hs.flight) + Items(ms)
    ensures w == Error <==> SendHelloFails(e)
    ensures w == Ok ==> ms == [Message(ServerHello, Plain(e.body))] && hs.known.cipher.Some?
    ensures w == Ok ==>
              (hs.known.channelIdValid <==>
                && old(hs.known).channelIdValid && hs.known.cipher.value.mkey == KEcdhe
                && (hs.session ==> e.hashesRecorded))
  {
    hide Ready, ServerValid, Settled, Hs.Accounted, Hs.Consistent, Hs.Hashed, ServersTurn;
    Entered(hs, SendServerHello);
    ms := [];
    SuiteChosen(hs);
    DropChannelId(hs, e);
    if NoRandom in e.faults {
      return Error, [];
    }
    var m := Message(ServerHello, Plain(e.body));
    var added := hs.AddMessage(m, e);
    if !added {
      return Error, [];
    }
    OneItem(m);
    hs.serverState := if hs.session then SendServerFinished else SendServerCertificate;
    return Ok, [m];
  }

  // ----- the server's first flight -----

  lemma NoItems(flight: seq<Item>)
    ensures flight + Items([]) == flight
  {
    assert Items([]) == [];
  }

  /** One message of the first flight, at an optional place. */
  method AddOne(hs: Hs, kind: Kind, place: nat, e: Env) returns (ok: bool, ghost ms: seq<Message>)
    requires hs.Consistent() && hs.offset == 0 && ServersTurn(hs.transcript) == hs.isServer
    requires kind == Certificate || kind == CertificateStatus
    modifies hs`known, hs`transcript, hs`flight, hs`log
    ensures ok ==> hs.Consistent() && ServersTurn(hs.transcript) == hs.isServer
    ensures ok ==> Sends(ms, kind) && SideOf(hs) == Filled(old(SideOf(hs)), hs.serverState, place, ms)
    ensures ok ==> hs.known == old(hs.known).(filled := hs.known.filled)
    ensures ok ==> hs.flight == old(hs.flight) + Items(ms)
    ensures ok <==> Unadded !in e.faults
  {
    hide Hs.Accounted, Hs.Consistent, ServersTurn;
    ms := [];
    var m := Message(kind, Plain(e.body));
    ok := hs.AddMessage(m, e);
    if !ok {
      return false, [];
    }
    OneItem(m);
    hs.known := hs.known.(filled := hs.known.filled + {place});
    return true, [m];
  }

  /** The certificate and, if expected, its status. */
  method AddCertificate(hs: Hs, e: Env) returns (ok: bool, ghost ms: seq<Message>)
    requires hs.Consistent() && hs.offset == 0 && ServersTurn(hs.transcript) == hs.isServer && hs.known.cipher.Some?
    modifies hs`known, hs`transcript, hs`flight, hs`log
    ensures ok ==> hs.Consistent() && CertificateMove(old(SideOf(hs)), SideOf(hs), ms)
    ensures ok ==> hs.flight == old(hs.flight) + Items(ms)
    ensures
      var auth := old(hs.known).cipher.value.CertAuth();
      && (ok <==> !AddCertificateFails(old(ViewOf(hs)), e))
      && (ok ==> |ms| == if !auth then 0 else if hs.certificateStatusExpected then 2 else 1)
  {
    hide Hs.Accounted, Hs.Consistent, ServersTurn, Items, CertificateMove, Filled;
    ghost var v, flight := SideOf(hs), hs.flight;
    if !hs.known.cipher.value.CertAuth() {
      NoItems(hs.flight);
      CertificateAlone(v, []);
      return true, [];
    }
    if !hs.localCert {
      return false, [];
    }
    ok, ms := AddOne(hs, Certificate, SERVER_CERTIFICATE, e);
    if ok {
      CertificateAlone(v, ms);
    }
    if ok && hs.certificateStatusExpected {
      ghost var ss;
      ok, ss := AddOne(hs, CertificateStatus, STATUS, e);
      if ok {
        FlightAppend(flight, ms, ss);
        CertificateThenStatus(v, ms, ss);
      }
      ms := ms + ss;
    }
  }

  /** The parameters of the ServerKeyExchange, if one is to be sent. */
  method AssembleParameters(hs: Hs, e: Env) returns (ok: bool)
    requires hs.known.cipher.Some?
    modifies hs`known
    ensures ok <==> !(SendsParameters(old(hs.known).cipher.value, e) && ParamsRefused in e.faults)
    ensures ok ==> hs.known == old(hs.known).(serverParams := SendsParameters(old(hs.known).cipher.value, e))
  {
    var params := SendsParameters(hs.known.cipher.value, e);
    if params && ParamsRefused in e.faults {
      return false;
    }
    hs.known := hs.known.(serverParams := params);
    ok := true;
  }

  method DoSendServerCertificate(hs: Hs, e: Env) returns (w: Wait, ghost ms: seq<Message>)
    requires Ready(hs, SendServerCertificate)
    modifies hs`serverState, hs`known, hs`transcript, hs`flight, hs`log
    ensures w == Ok || w == Error
    ensures w == Ok ==> hs.Consistent() && Move(old(SideOf(hs)), SideOf(hs), ms)
    ensures w == Ok ==> hs.flight == old(hs.flight) + Items(ms)
    ensures w == Error <==> SendCertificateFails(old(ViewOf(hs)), e)
    ensures w == Ok ==>
              && hs.known.cipher.Some? && hs.known.serverParams == SendsParameters(hs.known.cipher.value, e)
              && |ms| == if !old(CertAuth(SideOf(hs))) then 0 else if hs.certificateStatusExpected then 2 else 1
  {
    hide Ready, ServerValid, Settled, Hs.Accounted, Hs.Consistent, Hs.Hashed, ServersTurn;
    hide Move, CertificateMove, SendsParameters, AddCertificateFails, Items;
    Entered(hs, SendServerCertificate);
    EnteredFull(hs, SendServerCertificate);
    ms := [];
    ghost var v := SideOf(hs);
    var added;
    added, ms := AddCertificate(hs, e);
    if !added {
      return Error, [];
    }
    ghost var u := SideOf(hs);
    CipherKept(v, u, ms);
    var assembled := AssembleParameters(hs, e);
    if !assembled {
      return Error, [];
    }
    SendsWhatIsRequired(v, e);
    CertificateThenParams(v, u, hs.known.serverParams, ms);
    hs.serverState := SendServerKeyExchange;
    w := Ok;
  }

  method DoSendServerKeyExchange(hs: Hs, e: Env) returns (w: Wait, ghost ms: seq<Message>)
    requires Ready(hs, SendServerKeyExchange)
    modifies hs`serverState, hs`known, hs`transcript, hs`flight, hs`log
    ensures w == Ok || w == Error || w == PrivateKeyOperation
    ensures w == Ok ==> hs.Consistent() && Move(old(SideOf(hs)), SideOf(hs), ms)
    ensures w == Ok ==> hs.flight == old(hs.flight) + Items(ms)
    ensures w == PrivateKeyOperation ==> unchanged(hs)
    ensures w == Error <==> SendKeyExchangeFails(old(ViewOf(hs)), e)
    ensures w == PrivateKeyOperation <==>
              old(hs.known.serverParams && CertAuth(SideOf(hs))) && SigningFailed !in e.faults && e.later
  {
    hide Ready, ServerValid, Settled, Hs.Accounted, Hs.Consistent, Hs.Hashed, ServersTurn;
    NoItems(hs.flight);
    Entered(hs, SendServerKeyExchange);
    EnteredFull(hs, SendServerKeyExchange);
    ms := [];
    if !hs.known.serverParams {
      hs.serverState := SendServerHelloDone;
      return Ok, [];
    }
    if hs.known.cipher.value.CertAuth() {
      if SigningFailed in e.faults {
        return Error, [];
      }
      if e.later {
        return PrivateKeyOperation, [];
      }
    }
    var m := Message(ServerKeyExchange, Plain(e.body));
    var added := hs.AddMessage(m, e);
    if !added {
      return Error, [];
    }
    OneItem(m);
    hs.known := hs.known.(serverParams := false, filled := hs.known.filled + {SERVER_KEY_EXCHANGE});
    hs.serverState := SendServerHelloDone;
    return Ok, [m];
  }

  /** A CertificateRequest, if one is wanted. */
  method AddCertificateRequest(hs: Hs, e: Env) returns (ok: bool, ghost ms: seq<Message>)
    requires hs.Consistent() && hs.offset == 0 && ServersTurn(hs.transcript) == hs.isServer
    modifies hs`known, hs`transcript, hs`flight, hs`log
    ensures ok ==> hs.Consistent() && ServersTurn(hs.transcript) == hs.isServer
    ensures ok ==> if old(hs.known).certRequest then Sends(ms, CertificateRequest) else ms == []
    ensures ok ==> hs.transcript == old(hs.transcript) + ms && hs.flight == old(hs.flight) + Items(ms)
    ensures ok ==> hs.known == old(hs.known).(filled := old(hs.known).filled
              + (if old(hs.known).certRequest then {CERTIFICATE_REQUEST} else {}))
    ensures ok <==> !old(hs.known).certRequest || Unadded !in e.faults
  {
    hide Hs.Accounted, Hs.Consistent, ServersTurn;
    ms := [];
    if !hs.known.certRequest {
      NoItems(hs.flight);
      assert hs.known.filled == hs.known.filled + {};
      return true, [];
    }
    var m := Message(CertificateRequest, Plain(e.body));
    var added := hs.AddMessage(m, e);
    if !added {
      return false, [];
    }
    OneItem(m);
    hs.known := hs.known.(filled := hs.known.filled + {CERTIFICATE_REQUEST});
    return true, [m];
  }

  method DoSendServerHelloDone(hs: Hs, e: Env) returns (w: Wait, ghost ms: seq<Message>)
    requires Ready(hs, SendServerHelloDone)
    modifies hs`serverState, hs`known, hs`transcript, hs`flight, hs`log
    ensures w == Flush || w == Error
    ensures w == Flush ==> hs.Consistent() && Move(old(SideOf(hs)), SideOf(hs), ms)
    ensures w == Flush ==> hs.flight == old(hs.flight) + Items(ms)
    ensures w == Error <==> Unadded in e.faults
  {
    hide Items, Ready, ServerValid, Settled, Hs.Accounted, Hs.Consistent, Hs.Hashed, ServersTurn, Move;
    Entered(hs, SendServerHelloDone);
    EnteredFull(hs, SendServerHelloDone);
    ms := [];
    ghost var v := SideOf(hs);
    var requested;
    requested, ms := AddCertificateRequest(hs, e);
    if !requested {
      return Error, [];
    }
    RequestThenDone(v, SideOf(hs), ms);
    var done := Message(ServerHelloDone, Plain([]));
    var last := hs.AddMessage(done, e);
    if !last {
      return Error, [];
    }
    OneItem(done);
    ItemsAppend(ms, [done]);
    hs.serverState := ReadClientCertificate;
    return Flush, ms + [done];
  }

  // ----- the client's flight -----

  /** An empty chain is fine unless the configuration says otherwise. */
  method DoReadClientCertificate(hs: Hs, e: Env) returns (w: Wait, ghost ms: seq<Message>)
    requires Ready(hs, ReadClientCertificate)
    modifies hs`serverState, hs`known, hs`transcript, hs`inbox, hs`log
    ensures w == Ok || w == Error || w == ReadMessage
    ensures w == Ok ==> hs.Consistent() && Move(old(SideOf(hs)), SideOf(hs), ms)
    ensures w == Ok ==> old(hs.inbox) == ms + hs.inbox
    ensures w == ReadMessage <==> old(hs.known.certRequest && hs.inbox == [])
    ensures w == ReadMessage ==> unchanged(hs)
    ensures w == Error <==> CertificateFails(old(ViewOf(hs)), e)
    ensures w == Error && Obliging(e) ==> StandsAt(hs, old(ViewOf(hs)))
    ensures w == Ok && ms != [] ==> hs.known.peerCerts == e.certs
  {
    hide Ready, ServerValid, Settled, Hs.Accounted, Hs.Consistent, Hs.Hashed, ServersTurn;
    Entered(hs, ReadClientCertificate);
    EnteredFull(hs, ReadClientCertificate);
    ms := [];
    if !hs.known.certRequest {
      hs.serverState := VerifyClientCertificate;
      return Ok, [];
    }
    var msg := hs.GetMessage();
    if msg.None? {
      return ReadMessage, [];
    }
    if msg.value.kind != Certificate {
      return Error, [];
    }
    var hashed := hs.HashMessage(e);
    if !hashed {
      return Error, [];
    }
    if Unparsed in e.faults {
      return Error, [];
    }
    if e.certs == 0 && e.failIfNoPeerCert {
      return Error, [];
    }
    hs.NextMessage();
    hs.known := hs.known.(peerCerts := e.certs, filled := hs.known.filled + {CLIENT_CERTIFICATE});
    hs.serverState := VerifyClientCertificate;
    return Ok, [msg.value];
  }

  method DoVerifyClientCertificate(hs: Hs, e: Env) returns (w: Wait, ghost ms: seq<Message>)
    requires Ready(hs, VerifyClientCertificate)
    modifies hs`serverState, hs`known
    ensures w == if old(hs.known).peerCerts == 0 then Ok
                 else match e.verdict case Good => Ok case Invalid => Error case Undecided => VerifyPending
    ensures w == Ok ==> hs.Consistent() && Move(old(SideOf(hs)), SideOf(hs), ms)
    ensures w == VerifyPending ==> unchanged(hs)
    ensures w == Error && Obliging(e) ==> StandsAt(hs, old(ViewOf(hs)))
  {
    hide Ready, ServerValid, Settled, Hs.Accounted, Hs.Consistent, Hs.Hashed, ServersTurn;
    Entered(hs, VerifyClientCertificate);
    EnteredFull(hs, VerifyClientCertificate);
    ms := [];
    if hs.known.peerCerts > 0 {
      w := hs.VerifyPeerCert(e);
      if w != Ok {
        return w, [];
      }
    }
    hs.serverState := ReadClientKeyExchange;
    return Ok, [];
  }

  /** The message is hashed before the master secret is derived. An RSA premaster
      secret is chosen by module Premaster. */
  method DoReadClientKeyExchange(hs: Hs, e: Env) returns (w: Wait, ghost ms: seq<Message>)
    requires Ready(hs, ReadClientKeyExchange)
    modifies hs`serverState, hs`known, hs`transcript, hs`inbox, hs`log
    ensures w == Ok || w == Error || w == ReadMessage || w == PrivateKeyOperation
    ensures w == Ok ==> hs.Consistent() && Move(old(SideOf(hs)), SideOf(hs), ms)
    ensures w == Ok ==> old(hs.inbox) == ms + hs.inbox
    ensures w == ReadMessage <==> old(hs.inbox) == []
    ensures w == ReadMessage ==> unchanged(hs)
    ensures w == PrivateKeyOperation ==> unchanged(hs)
    ensures w == Error <==> KeyExchangeFails(old(ViewOf(hs)), e)
    ensures w == Error && Obliging(e) ==> StandsAt(hs, old(ViewOf(hs)))
    ensures w == PrivateKeyOperation ==>
              e.later && old(hs.known).cipher.Some? && old(hs.known).cipher.value.mkey == KRsa
  {
    hide Ready, ServerValid, Settled, Hs.Accounted, Hs.Consistent, Hs.Hashed, ServersTurn;
    Entered(hs, ReadClientKeyExchange);
    EnteredFull(hs, ReadClientKeyExchange);
    ms := [];
    var msg := hs.GetMessage();
    if msg.None? {
      return ReadMessage, [];
    }
    if msg.value.kind != ClientKeyExchange {
      return Error, [];
    }
    if hs.known.cipher.value.auth == APsk && IdentityRefused in e.faults {
      return Error, [];
    }
    if Unparsed in e.faults {
      return Error, [];
    }
    if hs.known.cipher.value.mkey == KRsa && e.later {
      return PrivateKeyOperation, [];
    }
    if SecretsFailed in e.faults {
      return Error, [];
    }
    var hashed := hs.HashMessage(e);
    if !hashed {
      return Error, [];
    }
    var derived := hs.GenerateMasterSecret(e);
    if !derived {
      return Error, [];
    }
    hs.NextMessage();
    hs.serverState := ReadClientCertificateVerify;
    return Ok, [msg.value];
  }

  /** Required exactly if there is a client certificate; checked against the
      transcript before it, then hashed. */
  method DoReadClientCertificateVerify(hs: Hs, e: Env) returns (w: Wait, ghost ms: seq<Message>)
    requires Ready(hs, ReadClientCertificateVerify)
    modifies hs`serverState, hs`known, hs`transcript, hs`inbox, hs`log
    ensures w == Ok || w == Error || w == ReadMessage
    ensures w == Ok ==> hs.Consistent() && Move(old(SideOf(hs)), SideOf(hs), ms)
    ensures w == Ok ==> old(hs.inbox) == ms + hs.inbox
    ensures w == ReadMessage <==> old(hs.known.peerCerts > 0 && hs.inbox == [])
    ensures w == ReadMessage ==> unchanged(hs)
    ensures w == Error <==> VerifyFails(old(ViewOf(hs)), e)
    ensures w == Error && Obliging(e) ==> StandsAt(hs, old(ViewOf(hs)))
  {
    hide Ready, ServerValid, Settled, Hs.Accounted, Hs.Consistent, Hs.Hashed, ServersTurn;
    Entered(hs, ReadClientCertificateVerify);
    EnteredFull(hs, ReadClientCertificateVerify);
    ms := [];
    if hs.known.peerCerts == 0 {
      hs.serverState := ReadChangeCipherSpecState;
      return Ok, [];
    }
    var msg := hs.GetMessage();
    if msg.None? {
      return ReadMessage, [];
    }
    if msg.value.kind != CertificateVerify {
      return Error, [];
    }
    if Unparsed in e.faults {
      return Error, [];
    }
    if msg.value.body != Signed(hs.transcript) {
      return Error, [];
    }
    var over := hs.transcript;
    var hashed := hs.HashMessage(e);
    if !hashed {
      return Error, [];
    }
    hs.NextMessage();
    hs.known := hs.known.(signatureOver := Some(over), filled := hs.known.filled + {VERIFY});
    hs.serverState := ReadChangeCipherSpecState;
    return Ok, [msg.value];
  }

  // ----- the Finished messages -----

  method DoReadChangeCipherSpec(hs: Hs, e: Env) returns (w: Wait, ghost ms: seq<Message>)
    requires Ready(hs, ReadChangeCipherSpecState)
    modifies hs`serverState
    ensures w == ReadChangeCipherSpec
    ensures w == ReadChangeCipherSpec ==> hs.Consistent() && Move(old(SideOf(hs)), SideOf(hs), ms)
    ensures w == ReadChangeCipherSpec ==> hs.serverState == ServerProcessChangeCipherSpec
  {
    hide Ready, ServerValid, Settled, Hs.Accounted, Hs.Consistent, Hs.Hashed, ServersTurn;
    Entered(hs, ReadChangeCipherSpecState);
    ms := [];
    hs.serverState := ServerProcessChangeCipherSpec;
    return ReadChangeCipherSpec, [];
  }

  method DoProcessChangeCipherSpec(hs: Hs, e: Env) returns (w: Wait, ghost ms: seq<Message>)
    requires Ready(hs, ServerProcessChangeCipherSpec)
    modifies hs`serverState
    ensures w == if NoKeys in e.faults then Error else Ok
    ensures w == Ok ==> hs.Consistent() && Move(old(SideOf(hs)), SideOf(hs), ms)
    ensures w == Error && Obliging(e) ==> StandsAt(hs, old(ViewOf(hs)))
  {
    hide Ready, ServerValid, Settled, Hs.Accounted, Hs.Consistent, Hs.Hashed, ServersTurn;
    Entered(hs, ServerProcessChangeCipherSpec);
    ms := [];
    if NoKeys in e.faults {
      return Error, [];
    }
    hs.serverState := ReadNextProto;
    return Ok, [];
  }

  method DoReadNextProto(hs: Hs, e: Env) returns (w: Wait, ghost ms: seq<Message>)
    requires Ready(hs, ReadNextProto)
    modifies hs`serverState, hs`known, hs`transcript, hs`inbox, hs`log
    ensures w == Ok || w == Error || w == ReadMessage
    ensures w == Ok ==> hs.Consistent() && Move(old(SideOf(hs)), SideOf(hs), ms)
    ensures w == Ok ==> old(hs.inbox) == ms + hs.inbox
    ensures w == ReadMessage <==> old(hs.known.nextProtoSeen && hs.inbox == [])
    ensures w == ReadMessage ==> unchanged(hs)
    ensures w == Error <==> NextProtoFails(old(ViewOf(hs)), e)
    ensures w == Error && Obliging(e) ==> StandsAt(hs, old(ViewOf(hs)))
  {
    hide Ready, ServerValid, Settled, Hs.Accounted, Hs.Consistent, Hs.Hashed, ServersTurn;
    hide Move;
    Entered(hs, ReadNextProto);
    ms := [];
    ghost var v := SideOf(hs);
    if !hs.known.nextProtoSeen {
      hs.serverState := ReadChannelId;
      OptionalMove(v, []);
      return Ok, [];
    }
    var msg := hs.GetMessage();
    if msg.None? {
      return ReadMessage, [];
    }
    if msg.value.kind != NextProto {
      return Error, [];
    }
    var hashed := hs.HashMessage(e);
    if !hashed {
      return Error, [];
    }
    if Unparsed in e.faults {
      return Error, [];
    }
    hs.NextMessage();
    hs.known := hs.known.(filled := hs.known.filled + {FirstPlace(hs.session)});
    hs.serverState := ReadChannelId;
    OptionalMove(v, [msg.value]);
    return Ok, [msg.value];
  }

  method DoReadChannelId(hs: Hs, e: Env) returns (w: Wait, ghost ms: seq<Message>)
    requires Ready(hs, ReadChannelId)
    modifies hs`serverState, hs`known, hs`transcript, hs`inbox, hs`log
    ensures w == Ok || w == Error || w == ReadMessage
    ensures w == Ok ==> hs.Consistent() && Move(old(SideOf(hs)), SideOf(hs), ms)
    ensures w == Ok ==> old(hs.inbox) == ms + hs.inbox
    ensures w == ReadMessage <==> old(hs.known.channelIdValid && hs.inbox == [])
    ensures w == ReadMessage ==> unchanged(hs)
    ensures w == Error <==> ChannelIdFails(old(ViewOf(hs)), e)
    ensures w == Error && Obliging(e) ==> StandsAt(hs, old(ViewOf(hs)))
  {
    hide Ready, ServerValid, Settled, Hs.Accounted, Hs.Consistent, Hs.Hashed, ServersTurn;
    hide Move;
    Entered(hs, ReadChannelId);
    ms := [];
    ghost var v := SideOf(hs);
    if !hs.known.channelIdValid {
      hs.serverState := ReadClientFinished;
      OptionalMove(v, []);
      return Ok, [];
    }
    var msg := hs.GetMessage();
    if msg.None? {
      return ReadMessage, [];
    }
    if msg.value.kind != ChannelId {
      return Error, [];
    }
    if BadSignature in e.faults {
      return Error, [];
    }
    var hashed := hs.HashMessage(e);
    if !hashed {
      return Error, [];
    }
    hs.NextMessage();
    hs.known := hs.known.(filled := hs.known.filled + {FirstPlace(hs.session) + 1});
    hs.serverState := ReadClientFinished;
    OptionalMove(v, [msg.value]);
    return Ok, [msg.value];
  }

  method DoReadClientFinished(hs: Hs, e: Env) returns (w: Wait, ghost ms: seq<Message>)
    requires Ready(hs, ReadClientFinished)
    modifies hs`serverState, hs`known, hs`transcript, hs`inbox, hs`log
    ensures w == Ok || w == Error || w == ReadMessage
    ensures w == Ok ==> hs.Consistent() && Move(old(SideOf(hs)), SideOf(hs), ms)
    ensures w == Ok ==> old(hs.inbox) == ms + hs.inbox
    ensures w == ReadMessage <==> old(hs.inbox) == []
    ensures w == ReadMessage ==> unchanged(hs)
    ensures w == Error <==> FinishedFails(old(ViewOf(hs)), e)
    ensures w == Error && Obliging(e) ==> StandsAt(hs, old(ViewOf(hs)))
  {
    hide Ready, ServerValid, Settled, Hs.Accounted, Hs.Consistent, Hs.Hashed, ServersTurn;
    Entered(hs, ReadClientFinished);
    ms := [];
    ghost var t := hs.transcript;
    w := hs.GetFinished(e);
    if w != Ok {
      return w, [];
    }
    hs.serverState := AfterClientFinished(hs.session);
    if !hs.session && hs.known.channelIdValid && HashesUnrecorded in e.faults {
      return Error, [];
    }
    return Ok, [FinishedOf(false, t)];
  }

  /** A ticket, if one was promised. */
  method AddTicket(hs: Hs, e: Env) returns (ok: bool, ghost ms: seq<Message>)
    requires hs.Consistent() && hs.offset == 0 && ServersTurn(hs.transcript) == hs.isServer
    modifies hs`known, hs`transcript, hs`flight, hs`log
    ensures ok ==> hs.Consistent() && ServersTurn(hs.transcript) == hs.isServer
    ensures ok ==> |ms| == (if hs.ticketExpected then 1 else 0) && (ms != [] ==> ms[0].kind == NewSessionTicket)
    ensures ok ==> hs.transcript == old(hs.transcript) + ms && hs.flight == old(hs.flight) + Items(ms)
    ensures ok ==>
              if ms == [] then SideOf(hs) == old(SideOf(hs))
              else SideOf(hs) == Filled(old(SideOf(hs)), hs.serverState, TicketPlace(hs.session), ms)
    ensures ok <==> !hs.ticketExpected || (Unencrypted !in e.faults && Unadded !in e.faults)
  {
    hide Hs.Accounted, Hs.Consistent, ServersTurn;
    ms := [];
    if !hs.ticketExpected {
      return true, [];
    }
    if Unencrypted in e.faults {
      return false, [];
    }
    var m := Message(NewSessionTicket, Plain(e.body));
    ok := hs.AddMessage(m, e);
    if !ok {
      return false, [];
    }
    OneItem(m);
    hs.known := hs.known.(filled := hs.known.filled + {TicketPlace(hs.session)});
    return true, [m];
  }

  lemma ChangeThenFinished(flight: seq<Item>, ms: seq<Message>, m: Message)
    ensures
      var all := ms + [m];
      flight + Items(ms) + [ChangeCipherSpec] + [Handshake(m)]
      == flight + Items(all[..|all| - 1]) + [ChangeCipherSpec, Handshake(all[|all| - 1])]
  {
    assert (ms + [m])[..|ms|] == ms;
  }

  /** The ticket still goes out under the old keys. */
  method DoSendServerFinished(hs: Hs, e: Env) returns (w: Wait, ghost ms: seq<Message>)
    requires Ready(hs, SendServerFinished)
    modifies hs`serverState, hs`known, hs`transcript, hs`flight, hs`log
    ensures w == Flush || w == Error
    ensures w == Flush ==> hs.Consistent() && Move(old(SideOf(hs)), SideOf(hs), ms)
    ensures w == Flush ==> |ms| == (if hs.ticketExpected then 2 else 1)
    ensures w == Flush ==>
              hs.flight == old(hs.flight) + Items(ms[..|ms| - 1]) + [ChangeCipherSpec, Handshake(ms[|ms| - 1])]
    ensures w == Error <==> SendFinishedFails(old(ViewOf(hs)), e)
  {
    hide Items, Ready, ServerValid, Settled, Hs.Accounted, Hs.Consistent, Hs.Hashed, ServersTurn;
    hide Move;
    Entered(hs, SendServerFinished);
    ms := [];
    ghost var v, flight := SideOf(hs), hs.flight;
    var ticketed;
    ticketed, ms := AddTicket(hs, e);
    if !ticketed {
      return Error, [];
    }
    ghost var u := SideOf(hs);
    TicketThenFinished(v, u, ms);
    var changed := hs.AddChangeCipherSpec(e);
    if !changed || NoKeys in e.faults {
      return Error, [];
    }
    var sent := hs.SendFinished(e);
    if !sent {
      return Error, [];
    }
    ChangeThenFinished(flight, ms, FinishedOf(true, u.t));
    ms := ms + [FinishedOf(true, u.t)];
    hs.serverState := AfterServerFinished(hs.session);
    w := Flush;
  }

  method DoFinishServerHandshake(hs: Hs, e: Env) returns (w: Wait)
    requires Ready(hs, FinishServerHandshake)
    modifies hs`serverState
    ensures w == Ok && hs.serverState == ServerDone
  {
    hs.serverState := ServerDone;
    w := Ok;
  }

  // ----- the driver -----

  /** What every step keeps, unless it fails: the invariant, and a rank that
      falls on ssl_hs_ok and never rises. Waiting for a message means there is
      none, and that the client's Finished is still to come. */
  ghost predicate After(hs: Hs, w: Wait, rank: nat)
    reads hs
  {
    && ServerValid(hs) && hs.offset == 0
    && (if w == Ok then Rank(hs.serverState, hs.session) < rank else Rank(hs.serverState, hs.session) <= rank)
    && (w == ReadMessage && !hs.tls13 ==> hs.inbox == [])
    && (Reads(w) && !hs.tls13 ==> hs.known.checkedOver.None?)
    && (w == ReadServerHello || w == EarlyReturn ==> hs.tls13)
  }

  lemma Moved(hs: Hs, w: Wait, v: Side, ms: seq<Message>)
    requires hs.isServer && !hs.tls13 && hs.offset == 0 && hs.Consistent()
    requires Settled(v) && Move(v, SideOf(hs), ms) && w != ReadMessage && w != ReadServerHello && w != EarlyReturn
    requires v.s == ReadClientHello || v.s == SelectCertificate ==> HelloPending(hs)
    requires w == ReadChangeCipherSpec ==> hs.serverState == ServerProcessChangeCipherSpec
    ensures After(hs, w, Rank(v.s, v.resumed))
  {
    hide Settled, Hs.Accounted, Hs.Consistent;
    MoveLeads(v, SideOf(hs), ms);
    if w == ReadChangeCipherSpec {
      FinishedToCome(SideOf(hs));
    }
  }

  /** The ClientHello is looked at. */
  method HelloStep(hs: Hs, e: Env) returns (w: Wait)
    requires ServerValid(hs) && hs.offset == 0 && InHello(hs.serverState)
    modifies hs
    ensures w != Error ==> After(hs, w, Rank(old(hs.serverState), old(hs.session)))
    ensures hs.tls13 == old(hs.tls13) && hs.wait == old(hs.wait) && hs.channel == old(hs.channel)
    ensures Ordinary(w, old(ViewOf(hs)), e)
    ensures w == Error && Untroubled(old(ViewOf(hs)), e) ==> StandsAt(hs, old(ViewOf(hs)))
  {
    hide Settled, Move, Ordinary, StandsAt, Obliging, Items, Hs.Accounted, Hs.Consistent, ReadHelloFails;
    ghost var x, ms := ViewOf(hs), [];
    NeverTls13(x.side);
    FinishedToCome(x.side);
    if hs.serverState == StartAccept {
      w, ms := DoStartAccept(hs, e);
    } else {
      w, ms := DoReadClientHello(hs, e);
    }
    if w == Ok {
      Moved(hs, w, x.side, ms);
    }
    FailsOrdinary(w, x, e);
  }

  /** The choices that are made before it is taken. */
  method SelectStep(hs: Hs, e: Env) returns (w: Wait)
    requires ServerValid(hs) && hs.offset == 0 && InSelection(hs.serverState)
    modifies hs
    ensures w != Error ==> After(hs, w, Rank(old(hs.serverState), old(hs.session)))
    ensures hs.wait == old(hs.wait) && hs.channel == old(hs.channel) && (old(hs.tls13) ==> hs.tls13)
    ensures hs.tls13 || Ordinary(w, old(ViewOf(hs)), e)
    ensures w == Error && !hs.tls13 && Untroubled(old(ViewOf(hs)), e) ==> StandsAt(hs, old(ViewOf(hs)))
  {
    hide Settled, Move, Ordinary, StandsAt, Untroubled, Items;
    hide Hs.Accounted, Hs.Consistent, SelectCertificateFails, SelectParametersFails, AsksForCertificate;
    ghost var x, ms := ViewOf(hs), [];
    NeverTls13(x.side);
    FinishedToCome(x.side);
    if hs.serverState == SelectCertificate {
      w, ms := DoSelectCertificate(hs, e);
    } else {
      w, ms := DoSelectParameters(hs, e);
    }
    if w == Ok && !hs.tls13 {
      Moved(hs, w, x.side, ms);
    }
    FailsOrdinary(w, x, e);
    OnlyReadsRefuse(x, e);
  }

  method Tls13Step(hs: Hs, e: Env) returns (w: Wait)
    requires ServerValid(hs) && hs.offset == 0 && hs.serverState == ServerTls13
    modifies hs
    ensures w != Error ==> After(hs, w, Rank(old(hs.serverState), old(hs.session)))
    ensures hs.wait == old(hs.wait) && hs.channel == old(hs.channel) && hs.tls13
  {
    hide Settled, Hs.Accounted, Hs.Consistent;
    if !hs.tls13 {
      NeverTls13(SideOf(hs));
    }
    w := DoTls13(hs, e);
  }

  /** The states of the server's first flight in a full handshake. */
  method FirstFlightStep(hs: Hs, e: Env) returns (w: Wait)
    requires ServerValid(hs) && hs.offset == 0 && InFirstFlight(hs.serverState)
    modifies hs
    ensures w != Error ==> After(hs, w, Rank(old(hs.serverState), old(hs.session)))
    ensures hs.tls13 == old(hs.tls13) && hs.wait == old(hs.wait) && hs.channel == old(hs.channel)
    ensures Ordinary(w, old(ViewOf(hs)), e)
    ensures w == Error && Untroubled(old(ViewOf(hs)), e) ==> StandsAt(hs, old(ViewOf(hs)))
  {
    hide Settled, Move, Ordinary, StandsAt, Untroubled, Items;
    hide Hs.Accounted, Hs.Consistent, SendHelloFails, SendCertificateFails, SendKeyExchangeFails;
    ghost var x, ms := ViewOf(hs), [];
    NeverTls13(x.side);
    if hs.serverState == SendServerHello {
      w, ms := DoSendServerHello(hs, e);
    } else if hs.serverState == SendServerCertificate {
      w, ms := DoSendServerCertificate(hs, e);
    } else if hs.serverState == SendServerKeyExchange {
      w, ms := DoSendServerKeyExchange(hs, e);
    } else {
      w, ms := DoSendServerHelloDone(hs, e);
    }
    if w == Ok || w == Flush {
      Moved(hs, w, x.side, ms);
    }
    FailsOrdinary(w, x, e);
    OnlyReadsRefuse(x, e);
  }

  /** The states of the client's flight in a full handshake. */
  method ClientFlightStep(hs: Hs, e: Env) returns (w: Wait)
    requires ServerValid(hs) && hs.offset == 0 && InClientFlight(hs.serverState)
    modifies hs
    ensures w != Error ==> After(hs, w, Rank(old(hs.serverState), old(hs.session)))
    ensures hs.tls13 == old(hs.tls13) && hs.wait == old(hs.wait) && hs.channel == old(hs.channel)
    ensures Ordinary(w, old(ViewOf(hs)), e)
    ensures w == Error && Untroubled(old(ViewOf(hs)), e) ==> StandsAt(hs, old(ViewOf(hs)))
  {
    hide Settled, Move, Ordinary, StandsAt, Obliging, Items;
    hide Hs.Accounted, Hs.Consistent, CertificateFails, KeyExchangeFails, VerifyFails;
    ghost var x, ms := ViewOf(hs), [];
    NeverTls13(x.side);
    FinishedToCome(x.side);
    if hs.serverState == ReadClientCertificate {
      w, ms := DoReadClientCertificate(hs, e);
    } else if hs.serverState == VerifyClientCertificate {
      w, ms := DoVerifyClientCertificate(hs, e);
    } else if hs.serverState == ReadClientKeyExchange {
      w, ms := DoReadClientKeyExchange(hs, e);
    } else {
      w, ms := DoReadClientCertificateVerify(hs, e);
    }
    if w == Ok {
      Moved(hs, w, x.side, ms);
    }
    FailsOrdinary(w, x, e);
  }

  /** The states that read the end of the client's flight. */
  method ReadFinishStep(hs: Hs, e: Env) returns (w: Wait)
    requires ServerValid(hs) && hs.offset == 0 && InReadFinish(hs.serverState)
    modifies hs
    ensures w != Error ==> After(hs, w, Rank(old(hs.serverState), old(hs.session)))
    ensures hs.tls13 == old(hs.tls13) && hs.wait == old(hs.wait) && hs.channel == old(hs.channel)
    ensures Ordinary(w, old(ViewOf(hs)), e)
    ensures w == Error && Untroubled(old(ViewOf(hs)), e) ==> StandsAt(hs, old(ViewOf(hs)))
  {
    hide Settled, Move, Ordinary, StandsAt, Obliging, Items;
    hide Hs.Accounted, Hs.Consistent, NextProtoFails, ChannelIdFails, FinishedFails;
    ghost var x, ms := ViewOf(hs), [];
    NeverTls13(x.side);
    FinishedToCome(x.side);
    if hs.serverState == ReadChangeCipherSpecState {
      w, ms := DoReadChangeCipherSpec(hs, e);
    } else if hs.serverState == ServerProcessChangeCipherSpec {
      w, ms := DoProcessChangeCipherSpec(hs, e);
    } else if hs.serverState == ReadNextProto {
      w, ms := DoReadNextProto(hs, e);
    } else if hs.serverState == ReadChannelId {
      w, ms := DoReadChannelId(hs, e);
    } else {
      w, ms := DoReadClientFinished(hs, e);
    }
    if w == Ok || w == ReadChangeCipherSpec {
      Moved(hs, w, x.side, ms);
    }
    FailsOrdinary(w, x, e);
  }

  lemma FinishMoves(v: Side)
    requires v.s == FinishServerHandshake
    ensures Move(v, v.(s := ServerDone), [])
  {
  }

  /** The states that do not read. */
  method SendFinishStep(hs: Hs, e: Env) returns (w: Wait)
    requires ServerValid(hs) && hs.offset == 0
    requires hs.serverState == SendServerFinished || hs.serverState == FinishServerHandshake
    modifies hs
    ensures w != Error ==> After(hs, w, Rank(old(hs.serverState), old(hs.session)))
    ensures hs.tls13 == old(hs.tls13) && hs.wait == old(hs.wait) && hs.channel == old(hs.channel)
    ensures Ordinary(w, old(ViewOf(hs)), e)
    ensures w == Error && Untroubled(old(ViewOf(hs)), e) ==> StandsAt(hs, old(ViewOf(hs)))
  {
    hide Settled, Move, Ordinary, StandsAt, Untroubled, Items, Hs.Accounted, Hs.Consistent, SendFinishedFails;
    ghost var x, ms := ViewOf(hs), [];
    if hs.serverState == SendServerFinished {
      w, ms := DoSendServerFinished(hs, e);
    } else {
      w := DoFinishServerHandshake(hs, e);
      FinishMoves(x.side);
    }
    if !hs.tls13 && (w == Ok || w == Flush) {
      Moved(hs, w, x.side, ms);
    }
    FailsOrdinary(w, x, e);
    OnlyReadsRefuse(x, e);
  }

  /** The next step, whichever it is. */
  method ServerStep(hs: Hs, e: Env) returns (w: Wait)
    requires ServerValid(hs) && hs.offset == 0 && hs.serverState != ServerDone
    modifies hs
    ensures w != Error ==> After(hs, w, Rank(old(hs.serverState), old(hs.session)))
    ensures hs.wait == old(hs.wait) && hs.channel == old(hs.channel) && (old(hs.tls13) ==> hs.tls13)
    ensures hs.tls13 || Ordinary(w, old(ViewOf(hs)), e)
    ensures w == Error && !hs.tls13 && Untroubled(old(ViewOf(hs)), e) ==> StandsAt(hs, old(ViewOf(hs)))
  {
    hide ServerValid, After, ViewOf, Rank, Ordinary, StandsAt, Untroubled;
    if InHello(hs.serverState) {
      w := HelloStep(hs, e);
    } else if InSelection(hs.serverState) {
      w := SelectStep(hs, e);
    } else if hs.serverState == ServerTls13 {
      w := Tls13Step(hs, e);
    } else if InFirstFlight(hs.serverState) {
      w := FirstFlightStep(hs, e);
    } else if InClientFlight(hs.serverState) {
      w := ClientFlightStep(hs, e);
    } else if InReadFinish(hs.serverState) {
      w := ReadFinishStep(hs, e);
    } else {
      w := SendFinishStep(hs, e);
    }
  }

  lemma KnowsSettled(hs: Hs)
    requires ServerValid(hs)
    ensures hs.tls13 || (Settled(SideOf(hs)) && Accounts(hs.isServer, hs.channel, hs.transcript, hs.flight, hs.inbox))
  {
  }

  /** ssl_server_handshake: runs steps until one waits, fails, or all is done. */
  method ServerHandshake(hs: Hs, env: ServerState -> Env) returns (w: Wait, ghost last: View)
    requires ServerValid(hs) && hs.offset == 0
    modifies hs
    ensures w != Error ==> ServerValid(hs) && hs.offset == 0
    ensures w == Ok ==> hs.serverState == ServerDone
    ensures w != Error && w != Ok ==> Rank(hs.serverState, hs.session) <= Rank(old(hs.serverState), old(hs.session))
    ensures w == ReadMessage || w == ReadServerHello ==> hs.tls13 || hs.inbox == []
    ensures Reads(w) ==> hs.tls13 || hs.known.checkedOver.None?
    ensures w == EarlyReturn ==> hs.tls13
    ensures hs.wait == old(hs.wait) && hs.channel == old(hs.channel)
    ensures Rank(last.side.s, last.side.resumed) <= Rank(old(hs.serverState), old(hs.session))
    ensures hs.tls13 || w == Ok || (Settled(last.side) && Ordinary(w, last, env(last.side.s)))
    ensures w == Error && !hs.tls13 && Untroubled(last, env(last.side.s)) ==>
              StandsAt(hs, last) && Accounts(hs.isServer, hs.channel, last.side.t, last.flight, last.inbox)
  {
    hide ServerValid, Settled, Ordinary, StandsAt, Untroubled, Accounts;
    last := ViewOf(hs);
    while hs.serverState != ServerDone
      invariant ServerValid(hs) && hs.offset == 0 && hs.wait == old(hs.wait) && hs.channel == old(hs.channel)
      invariant Rank(hs.serverState, hs.session) <= Rank(old(hs.serverState), old(hs.session))
      invariant Rank(last.side.s, last.side.resumed) <= Rank(old(hs.serverState), old(hs.session))
      decreases Rank(hs.serverState, hs.session)
    {
      last := ViewOf(hs);
      KnowsSettled(hs);
      w := ServerStep(hs, env(hs.serverState));
      if w != Ok {
        return;
      }
    }
    w := Ok;
  }

  /** What a finished handshake amounts to. */
  lemma DoneMeans(hs: Hs)
    requires ServerValid(hs) && hs.serverState == ServerDone && !hs.tls13
    ensures hs.known.cipher.Some? && PeerChecked(hs.known.checkedOver, hs.transcript)
    ensures
      var last := if hs.session then R_CLIENT_FINISHED else SERVER_FINISHED;
      Kinds(hs.transcript) == Upto(hs.session, last, hs.known.filled)
    ensures !hs.session && hs.known.peerCerts > 0 ==>
              hs.known.certsVerified && SignatureChecked(hs.known.signatureOver, hs.transcript)
    ensures !hs.session ==> hs.known.masterOver.Some? && hs.known.masterOver == KeyExchangePrefix(hs.transcript)
    ensures if hs.session then
              && (R_NEXT_PROTO in hs.known.filled <==> hs.known.nextProtoSeen)
              && (R_CHANNEL_ID in hs.known.filled <==> hs.known.channelIdValid)
            else
              && (SERVER_CERTIFICATE in hs.known.filled <==> hs.known.cipher.value.CertAuth())
              && (hs.known.cipher.value.mkey == KEcdhe ==> SERVER_KEY_EXCHANGE in hs.known.filled)
              && (CLIENT_CERTIFICATE in hs.known.filled <==> hs.known.certRequest)
              && (VERIFY in hs.known.filled <==> hs.known.peerCerts > 0)
              && (NEXT_PROTO in hs.known.filled <==> hs.known.nextProtoSeen)
              && (CHANNEL_ID in hs.known.filled <==> hs.known.channelIdValid)
  {
  }

  /** A new connection. */
  lemma FreshIsValid(hs: Hs)
    requires hs.isServer && !hs.tls13 && hs.Consistent() && hs.serverState == StartAccept && !hs.session
    requires hs.transcript == [] && hs.known == NOTHING_KNOWN
    ensures ServerValid(hs)
  {
    assert Upto(false, 0, {}) == [];
  }
}
