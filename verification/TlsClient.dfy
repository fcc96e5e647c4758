/** The client up to TLS 1.2 (handshake_client.cc): every do_* step and the
    driver. What parsing, extensions, callbacks and cryptography come to is an
    input, `e`, and with it every step is determined; TLS 1.3 is a step that
    ends the handshake or not. `ms` are the messages the step passes, taken or
    added. */
module TlsClient {
  import opened Prelude
  import opened TlsTranscript
  import opened TlsScript
  import opened TlsCore
  import opened TlsClientSide

  ghost function SideOf(hs: Hs): Side
    reads hs`clientState, hs`session, hs`known, hs`transcript
  {
    Side(hs.clientState, hs.session, hs.known, hs.transcript)
  }

  predicate Next(inbox: seq<Message>, kind: Kind) {
    inbox != [] && inbox[0].kind == kind
  }

  /** The next message is there, and of another kind. */
  predicate Other(inbox: seq<Message>, kind: Kind) {
    inbox != [] && inbox[0].kind != kind
  }

  /** Where a message was optional and not taken, the next one is another: a
      HelloVerifyRequest unless the transcript was restarted, a status that was
      announced, a ServerKeyExchange, a CertificateRequest with certificate
      ciphers. */
  predicate NonePassed(v: Side, dtls: bool, restarted: bool, status: bool, inbox: seq<Message>) {
    var missed := status && STATUS !in v.f.filled;
    match v.s
    case ReadServerHelloState => dtls && !restarted ==> Other(inbox, HelloVerifyRequest)
    case VerifyServerCertificate => missed ==> Other(inbox, CertificateStatus)
    case ReadServerKeyExchange => missed ==> Other(inbox, CertificateStatus)
    case ReadCertificateRequest =>
      SERVER_KEY_EXCHANGE !in v.f.filled ==>
        Other(inbox, ServerKeyExchange) && (missed ==> Other(inbox, CertificateStatus))
    case ReadServerHelloDone =>
      CERTIFICATE_REQUEST !in v.f.filled ==>
        && (CertAuth(v) ==> Next(inbox, ServerHelloDone))
        && (SERVER_KEY_EXCHANGE !in v.f.filled ==>
              Other(inbox, ServerKeyExchange) && (missed ==> Other(inbox, CertificateStatus)))
    case _ => true
  }

  ghost predicate HasPassedNone(hs: Hs)
    reads hs`clientState, hs`session, hs`known, hs`transcript, hs`inbox, hs`certificateStatusExpected, hs`channel
  {
    NonePassed(SideOf(hs), hs.dtls, hs.channel.receivedBefore > 0, hs.certificateStatusExpected, hs.inbox)
  }

  /** The states that look for a message that may not come. */
  predicate Looks(s: ClientState) {
    s == ReadCertificateStatus || s == ReadServerKeyExchange || s == ReadCertificateRequest
  }

  /** After them, and only after them, something may have been passed over. */
  predicate MayPass(s: ClientState) {
    Looks(s) || s == EnterEarlyData || s == ReadHelloVerifyRequest || s == VerifyServerCertificate
  }

  lemma PassesNothing(
      v: Side, w: Side, ms: seq<Message>, dtls: bool, restarted: bool, status: bool, inbox: seq<Message>)
    requires Move(v, w, ms) && !MayPass(v.s)
    ensures NonePassed(w, dtls, restarted, status, inbox)
  {
  }

  /** A step from v that takes nothing of the server's first flight has looked
      at the next message, where one may come. */
  predicate Looked(v: Side, status: bool, inbox: seq<Message>, ms: seq<Message>) {
    ms == [] ==>
      match v.s
      case ReadCertificateStatus => status ==> Other(inbox, CertificateStatus)
      case ReadServerKeyExchange => Other(inbox, ServerKeyExchange)
      case ReadCertificateRequest => CertAuth(v) ==> Next(inbox, ServerHelloDone)
      case _ => true
  }

  /** So nothing is passed over. */
  lemma StillNonePassed(
      v: Side, w: Side, ms: seq<Message>, dtls: bool, restarted: bool, status: bool, inbox: seq<Message>,
      rest: seq<Message>)
    requires Settled(v) && FullOnly(v.s) && Move(v, w, ms) && NonePassed(v, dtls, restarted, status, inbox)
    requires (Looks(v.s) ==> Looked(v, status, inbox, ms)) && (ms == [] ==> rest == inbox)
    ensures NonePassed(w, dtls, restarted, status, rest)
  {
    hide Settled;
  }

  ghost predicate ClientValid(hs: Hs)
    reads hs`tls13, hs`clientState, hs`session, hs`known, hs`transcript, hs`inbox, hs`flight, hs`log,
          hs`channel, hs`certificateStatusExpected
  {
    && !hs.isServer
    && if hs.tls13 then
         hs.clientState == ClientTls13 || hs.clientState == FinishClientHandshake || hs.clientState == ClientDone
       else hs.Consistent() && Settled(SideOf(hs)) && HasPassedNone(hs)
  }

  /** A step may run: the flight is not half written. */
  ghost predicate Ready(hs: Hs, s: ClientState)
    reads hs
  {
    ClientValid(hs) && hs.clientState == s && hs.offset == 0
  }

  lemma Entered(hs: Hs, s: ClientState)
    requires Ready(hs, s) && s != ClientTls13 && s != FinishClientHandshake && s != ClientDone
    ensures !hs.isServer && !hs.tls13 && hs.offset == 0 && hs.Consistent() && hs.clientState == s
    ensures ServersTurn(hs.transcript) == ServerNext(s, hs.session)
  {
  }

  lemma EnteredFull(hs: Hs, s: ClientState)
    requires Ready(hs, s) && FullOnly(s)
    ensures !hs.session && hs.known.cipher.Some?
  {
  }

  lemma EnteredStart(hs: Hs)
    requires Ready(hs, StartConnect)
    ensures hs.transcript == []
  {
    AtStart(SideOf(hs));
  }

  /** What a step goes by besides its environment. */
  datatype View = View(
    side: Side, dtls: bool, early: bool, status: bool, ticket: bool, localCert: bool, inbox: seq<Message>,
    flight: seq<Item>)
  {
    predicate Comes(kind: Kind) {
      Next(inbox, kind)
    }
  }

  ghost function ViewOf(hs: Hs): View
    reads hs`clientState, hs`session, hs`known, hs`transcript, hs`inbox, hs`flight, hs`earlyDataOffered,
          hs`certificateStatusExpected, hs`ticketExpected, hs`localCert
  {
    View(SideOf(hs), hs.dtls, hs.earlyDataOffered, hs.certificateStatusExpected, hs.ticketExpected, hs.localCert,
         hs.inbox, hs.flight)
  }

  /** The handshake stands where it stood in x, though the message may be hashed. */
  ghost predicate StandsAt(hs: Hs, x: View)
    reads hs`clientState, hs`session, hs`known, hs`transcript, hs`inbox, hs`flight, hs`earlyDataOffered,
          hs`ticketExpected
  {
    && hs.clientState == x.side.s && hs.session == x.side.resumed && hs.known == x.side.f
    && (hs.transcript == x.side.t || (x.inbox != [] && hs.transcript == x.side.t + [x.inbox[0]]))
    && hs.inbox == x.inbox && hs.flight == x.flight && hs.earlyDataOffered == x.early && hs.ticketExpected == x.ticket
  }

  /** The next message is out of place: none of the kinds that may come next, a
      ServerKeyExchange with RSA key exchange, a ServerHelloDone that is not
      empty, or a Finished over another transcript. */
  predicate Refuses(x: View) {
    && x.inbox != []
    && var m := x.inbox[0];
       match x.side.s
       case ReadServerHelloState => m.kind != ServerHello || x.early
       case ReadServerCertificate => CertAuth(x.side) && m.kind != Certificate
       case ReadServerKeyExchange =>
         && x.side.f.cipher.Some?
         && x.side.f.cipher.value.mkey == if m.kind == ServerKeyExchange then KRsa else KEcdhe
       case ReadCertificateRequest => CertAuth(x.side) && m.kind != CertificateRequest && m.kind != ServerHelloDone
       case ReadServerHelloDone => m != Message(ServerHelloDone, Plain([]))
       case ReadSessionTicket => x.ticket && m.kind != NewSessionTicket
       case ReadServerFinished => m != FinishedOf(true, x.side.t)
       case _ => false
  }

  /** What can come of a step when nothing goes wrong outside the machine: it
      fails only for what the next message is. */
  predicate Ordinary(w: Wait, x: View, e: Env) {
    Obliging(e) && (x.side.s == ReadServerCertificate ==> e.certs > 0) ==>
      if w == Error then Refuses(x) else w == Ok || w == Flush || w == EarlyReturn || Reads(w)
  }

  // The states, in the order of a full handshake.

  predicate InHellos(s: ClientState) {
    s == StartConnect || s == EnterEarlyData || s == ReadHelloVerifyRequest
  }

  predicate InVersions(s: ClientState) {
    s == ReadServerHelloState || s == ClientTls13
  }

  predicate InServerFlight(s: ClientState) {
    || s == ReadServerCertificate || s == ReadCertificateStatus || s == VerifyServerCertificate
    || s == ReadServerKeyExchange || s == ReadCertificateRequest || s == ReadServerHelloDone
  }

  predicate InClientFlight(s: ClientState) {
    s == SendClientCertificate || s == SendClientKeyExchange || s == SendClientCertificateVerify
  }

  predicate InReadFinish(s: ClientState) {
    s == ReadSessionTicket || s == ClientProcessChangeCipherSpec || s == ReadServerFinished
  }

  predicate InSendFinish(s: ClientState) {
    s == SendClientFinished || s == FinishFlight
  }

  // What makes each step fail.

  predicate ConnectFails(e: Env) {
    NoRandom in e.faults || Unadded in e.faults
  }

  predicate EarlyDataFails(x: View, e: Env) {
    !x.dtls && x.early && (CcsUnadded in e.faults || NoKeys in e.faults)
  }

  predicate VerifyRequestFails(x: View, e: Env) {
    x.Comes(HelloVerifyRequest) && (Unparsed in e.faults || NoTranscript in e.faults || Unadded in e.faults)
  }

  /** The session is one to go on with, and the cipher one that was offered. */
  predicate ChoiceAcceptable(offered: bool, e: Env) {
    && e.cipher.Some? && CipherRefused !in e.faults
    && if offered && e.resumable then SessionMisfit !in e.faults
       else EchoInvalid !in e.faults && NoSession !in e.faults
  }

  /** Nothing in the ServerHello stands against it, once session and cipher are chosen. */
  predicate HelloAcceptable(e: Env) {
    && Unhashed !in e.faults && CompressionRefused !in e.faults && ExtensionsRefused !in e.faults
    && TrailingBytes !in e.faults && SecretsMisfit !in e.faults
  }

  predicate HelloFails(x: View, e: Env) {
    && x.inbox != []
    && (|| !x.Comes(ServerHello) || Unparsed in e.faults || VersionRefused in e.faults
        || (e.version < TLS1_3 && (x.early || !ChoiceAcceptable(x.side.resumed, e) || !HelloAcceptable(e))))
  }

  predicate CertificateFails(x: View, e: Env) {
    && CertAuth(x.side) && x.inbox != []
    && (|| !x.Comes(Certificate) || Unhashed in e.faults || Unparsed in e.faults || e.certs == 0
        || LeafRefused in e.faults)
  }

  predicate StatusFails(x: View, e: Env) {
    x.status && x.Comes(CertificateStatus) && (Unhashed in e.faults || Unparsed in e.faults)
  }

  predicate KeyExchangeAccepted(c: Suite, e: Env) {
    && c.mkey != KRsa
    && (c.auth == APsk ==> HintRefused !in e.faults)
    && (c.mkey == KEcdhe ==> ParamsRefused !in e.faults)
    && (if c.auth == APsk then TrailingBytes !in e.faults else BadSignature !in e.faults)
  }

  predicate KeyExchangeFails(x: View, e: Env) {
    && x.side.f.cipher.Some? && x.inbox != []
    && if x.Comes(ServerKeyExchange) then Unhashed in e.faults || !KeyExchangeAccepted(x.side.f.cipher.value, e)
       else x.side.f.cipher.value.mkey == KEcdhe
  }

  predicate RequestFails(x: View, e: Env) {
    && CertAuth(x.side) && x.inbox != [] && !x.Comes(ServerHelloDone)
    && (!x.Comes(CertificateRequest) || Unhashed in e.faults || Unparsed in e.faults)
  }

  predicate HelloDoneFails(x: View, e: Env) {
    x.inbox != [] && (x.inbox[0] != Message(ServerHelloDone, Plain([])) || Unhashed in e.faults)
  }

  predicate SendCertificateFails(x: View, e: Env) {
    && x.side.f.certRequest
    && (|| CallbackFailed in e.faults
        || (!e.later && (CertificateUnselected in e.faults || Unadded in e.faults)))
  }

  predicate SendKeyExchangeFails(e: Env) {
    SecretsFailed in e.faults || Unadded in e.faults || Underived in e.faults
  }

  predicate SendVerifyFails(x: View, e: Env) {
    && x.side.f.certRequest && x.localCert
    && (SigningFailed in e.faults || (!e.later && Unadded in e.faults))
  }

  predicate SendFinishedFails(x: View, e: Env) {
    || (x.side.f.channelIdValid && CallbackFailed in e.faults)
    || (!(x.side.f.channelIdValid && e.later)
        && (CcsUnadded in e.faults || NoKeys in e.faults || Unadded in e.faults || Unlogged in e.faults))
  }

  predicate TicketFails(x: View, e: Env) {
    && x.ticket && x.inbox != []
    && (|| !x.Comes(NewSessionTicket) || Unhashed in e.faults || Unparsed in e.faults
        || (!e.ticketEmpty && Unstored in e.faults))
  }

  predicate FinishedFails(x: View, e: Env) {
    && x.inbox != []
    && (x.inbox[0] != FinishedOf(true, x.side.t) || Unhashed in e.faults || FinishedMisfit in e.faults)
  }

  predicate Fails(x: View, e: Env) {
    match x.side.s
    case StartConnect => ConnectFails(e)
    case EnterEarlyData => EarlyDataFails(x, e)
    case ReadHelloVerifyRequest => VerifyRequestFails(x, e)
    case ReadServerHelloState => HelloFails(x, e)
    case ClientTls13 => e.tls13 == Error
    case ReadServerCertificate => CertificateFails(x, e)
    case ReadCertificateStatus => StatusFails(x, e)
    case VerifyServerCertificate => CertAuth(x.side) && e.verdict == Invalid
    case ReadServerKeyExchange => KeyExchangeFails(x, e)
    case ReadCertificateRequest => RequestFails(x, e)
    case ReadServerHelloDone => HelloDoneFails(x, e)
    case SendClientCertificate => SendCertificateFails(x, e)
    case SendClientKeyExchange => SendKeyExchangeFails(e)
    case SendClientCertificateVerify => SendVerifyFails(x, e)
    case SendClientFinished => SendFinishedFails(x, e)
    case FinishFlight => !x.side.resumed && HashesUnrecorded in e.faults
    case ReadSessionTicket => TicketFails(x, e)
    case ClientProcessChangeCipherSpec => NoKeys in e.faults
    case ReadServerFinished => FinishedFails(x, e)
    case FinishClientHandshake => !x.side.resumed && Uncopied in e.faults
    case ClientDone => false
  }

  lemma OnlyReadsRefuse(x: View, e: Env)
    requires
      || InHellos(x.side.s) || InClientFlight(x.side.s) || InSendFinish(x.side.s)
      || x.side.s == FinishClientHandshake
    ensures !(Fails(x, e) && Obliging(e))
  {
  }

  /** A step that waits for the application was told to. */
  predicate Asked(w: Wait, e: Env) {
    match w
    case X509Lookup => e.later
    case ChannelIdLookup => e.later
    case PrivateKeyOperation => e.later
    case VerifyPending => e.verdict == Undecided
    case CertificateSelectionPending => false
    case Handoff => false
    case PendingSession => false
    case PendingTicket => false
    case _ => true
  }

  /** Without faults a step fails only for what the next message is. */
  lemma FailsOrdinary(w: Wait, x: View, e: Env)
    requires w == Error ==> Fails(x, e)
    requires Asked(w, e)
    ensures x.side.s != ClientTls13 ==> Ordinary(w, x, e)
  {
  }

  // ----- the hellos -----

  /** ssl_write_client_hello */
  method WriteClientHello(hs: Hs, e: Env) returns (ok: bool, ghost m: Message)
    requires !hs.isServer && hs.Consistent() && hs.transcript == [] && hs.offset == 0
    modifies hs`transcript, hs`flight, hs`log
    ensures ok <==> Unadded !in e.faults
    ensures ok ==> hs.Consistent() && hs.transcript == [m] && m == Message(ClientHello, Plain(e.body))
    ensures ok ==> hs.flight == old(hs.flight) + [Handshake(m)]
  {
    hide Hs.Accounted, Hs.Consistent;
    m := Message(ClientHello, Plain(e.body));
    ok := hs.AddMessage(Message(ClientHello, Plain(e.body)), e);
  }

  method DoStartConnect(hs: Hs, e: Env) returns (w: Wait, ghost ms: seq<Message>)
    requires Ready(hs, StartConnect)
    modifies hs`clientState, hs`session, hs`earlyDataOffered, hs`transcript, hs`flight, hs`log
    ensures w == Flush || w == Error
    ensures w == Error <==> ConnectFails(e)
    ensures w == Flush ==> hs.Consistent() && Move(old(SideOf(hs)), SideOf(hs), ms)
    ensures w == Flush ==> hs.flight == old(hs.flight) + Items(ms)
    ensures w == Flush ==> hs.session == (old(hs.session) && e.resumable)
    ensures w == Flush ==> hs.earlyDataOffered == (e.early && hs.session && !hs.dtls)
  {
    hide Ready, ClientValid, Settled, Hs.Accounted, Hs.Consistent, Hs.Hashed, ServersTurn;
    Entered(hs, StartConnect);
    ms := [];
    EnteredStart(hs);
    if hs.session && !e.resumable {
      hs.session := false;
    }
    if NoRandom in e.faults {
      return Error, [];
    }
    hs.earlyDataOffered := e.early && hs.session && !hs.dtls;
    var written;
    ghost var m;
    written, m := WriteClientHello(hs, e);
    if !written {
      return Error, [];
    }
    OneItem(m);
    hs.clientState := EnterEarlyData;
    return Flush, [m];
  }

  method DoEnterEarlyData(hs: Hs, e: Env) returns (w: Wait, ghost ms: seq<Message>)
    requires Ready(hs, EnterEarlyData)
    modifies hs`clientState, hs`flight
    ensures w == Ok || w == Error || w == EarlyReturn
    ensures w == Ok <==> hs.dtls || !hs.earlyDataOffered
    ensures w == Error <==> EarlyDataFails(old(ViewOf(hs)), e)
    ensures w != Error ==> hs.Consistent() && Move(old(SideOf(hs)), SideOf(hs), ms)
    ensures w == Ok ==> hs.flight == old(hs.flight)
    ensures w != Error ==> hs.clientState == if hs.dtls then ReadHelloVerifyRequest else ReadServerHelloState
    ensures w == EarlyReturn ==> hs.flight == old(hs.flight) + [ChangeCipherSpec]
    ensures w != Error ==> HasPassedNone(hs)
  {
    hide Ready, ClientValid, Settled, Hs.Accounted, Hs.Consistent, Hs.Hashed, ServersTurn;
    Entered(hs, EnterEarlyData);
    ms := [];
    if hs.dtls {
      hs.clientState := ReadHelloVerifyRequest;
      return Ok, [];
    }
    if !hs.earlyDataOffered {
      hs.clientState := ReadServerHelloState;
      return Ok, [];
    }
    var added := hs.AddChangeCipherSpec(e);
    if !added || NoKeys in e.faults {
      return Error, [];
    }
    hs.clientState := ReadServerHelloState;
    return EarlyReturn, [];
  }

  /** The transcript starts over with the second ClientHello. */
  method DoReadHelloVerifyRequest(hs: Hs, e: Env) returns (w: Wait, ghost ms: seq<Message>)
    requires Ready(hs, ReadHelloVerifyRequest)
    modifies hs`clientState, hs`transcript, hs`flight, hs`inbox, hs`log, hs`channel
    ensures w == Ok || w == Error || w == ReadMessage || w == Flush
    ensures w == ReadMessage <==> old(hs.inbox) == []
    ensures w == Ok <==> old(hs.inbox) != [] && !old(hs.Comes(HelloVerifyRequest))
    ensures w == Error <==> VerifyRequestFails(old(ViewOf(hs)), e)
    ensures w == Error && Obliging(e) ==> StandsAt(hs, old(ViewOf(hs)))
    ensures hs.channel.wire == old(hs.channel.wire) && hs.channel.arrived == old(hs.channel.arrived)
    ensures hs.channel == old(hs.channel) || old(hs.Comes(HelloVerifyRequest))
    ensures w == Ok || w == Flush ==> hs.Consistent() && Move(old(SideOf(hs)), SideOf(hs), ms)
    ensures w == Ok || w == Flush ==> hs.flight == old(hs.flight) + Items(ms)
    ensures w == ReadMessage ==> unchanged(hs)
    ensures w == Ok ==> ms == [] && hs.inbox == old(hs.inbox)
    ensures w == Flush ==> |ms| == 1 && hs.inbox == old(hs.inbox)[1..] && hs.channel.receivedBefore > 0
    ensures w == Ok || w == Flush ==> HasPassedNone(hs)
  {
    hide Ready, ClientValid, Settled, Hs.Accounted, Hs.Consistent, Hs.Hashed, ServersTurn;
    Entered(hs, ReadHelloVerifyRequest);
    ms := [];
    var msg := hs.GetMessage();
    if msg.None? {
      return ReadMessage, [];
    }
    if msg.value.kind != HelloVerifyRequest {
      hs.clientState := ReadServerHelloState;
      return Ok, [];
    }
    if Unparsed in e.faults {
      return Error, [];
    }
    hs.NextMessageAndRestart();
    if NoTranscript in e.faults {
      return Error, [];
    }
    var written;
    ghost var m;
    written, m := WriteClientHello(hs, e);
    if !written {
      return Error, [];
    }
    OneItem(m);
    hs.clientState := ReadServerHelloState;
    return Flush, [m];
  }

  /** The offered session is resumed if the server echoes its id, and dropped
      otherwise; the cipher must be one that was offered, and the session's. */
  method ChooseSessionAndCipher(hs: Hs, e: Env) returns (ok: bool)
    modifies hs`session, hs`known
    ensures ok ==> hs.known.cipher.Some? && hs.known == old(hs.known).(cipher := e.cipher)
    ensures ok ==> hs.session == (old(hs.session) && e.resumable)
    ensures hs.session ==> old(hs.session)
    ensures ok <==> ChoiceAcceptable(old(hs.session), e)
  {
    if !(hs.session && e.resumable) {
      if EchoInvalid in e.faults {
        return false;
      }
      hs.session := false;
      if NoSession in e.faults {
        return false;
      }
    }
    if e.cipher.None? || CipherRefused in e.faults || (hs.session && SessionMisfit in e.faults) {
      return false;
    }
    hs.known := hs.known.(cipher := e.cipher);
    ok := true;
  }

  /** ssl_parse_serverhello_tlsext, as far as the machine goes by it. */
  method ParseServerHelloExtensions(hs: Hs, e: Env) returns (ok: bool)
    modifies hs`known, hs`certificateStatusExpected, hs`ticketExpected
    ensures ok <==> ExtensionsRefused !in e.faults
    ensures hs.known == old(hs.known).(nextProtoSeen := e.nextProto, channelIdValid := e.channelId)
    ensures hs.certificateStatusExpected == e.status && hs.ticketExpected == e.ticket
  {
    hs.known := hs.known.(nextProtoSeen := e.nextProto, channelIdValid := e.channelId);
    hs.certificateStatusExpected, hs.ticketExpected := e.status, e.ticket;
    ok := ExtensionsRefused !in e.faults;
  }

  /** With the session and cipher that the ServerHello names. */
  function Chosen(v: Side, e: Env): Side {
    v.(resumed := v.resumed && e.resumable, f := v.f.(cipher := e.cipher))
  }

  /** What becomes of v, its session and cipher chosen, when the ServerHello m is taken. */
  function HelloTaken(v: Side, e: Env, m: Message): Side {
    Side(if v.resumed then ReadSessionTicket else ReadServerCertificate, v.resumed,
         v.f.(nextProtoSeen := e.nextProto, channelIdValid := e.channelId), v.t + [m])
  }

  lemma HelloTakenMoves(v: Side, e: Env, m: Message)
    requires v.s == ReadServerHelloState && e.cipher.Some? && m.kind == ServerHello
    ensures Move(v, HelloTaken(Chosen(v, e), e, m), [m])
  {
  }

  /** The rest of the ServerHello, once session and cipher are chosen. */
  method TakeServerHello(hs: Hs, e: Env) returns (ok: bool)
    requires hs.clientState == ReadServerHelloState && !hs.isServer && hs.Consistent() && ServersTurn(hs.transcript)
    requires hs.inbox != [] && hs.inbox[0].kind == ServerHello && hs.known.cipher.Some?
    modifies hs`clientState, hs`known, hs`transcript, hs`inbox, hs`log,
             hs`certificateStatusExpected, hs`ticketExpected
    ensures ok ==> hs.Consistent() && SideOf(hs) == HelloTaken(old(SideOf(hs)), e, old(hs.inbox)[0])
    ensures ok ==> hs.inbox == old(hs.inbox)[1..]
    ensures ok ==> hs.certificateStatusExpected == e.status && hs.ticketExpected == e.ticket
    ensures ok <==> HelloAcceptable(e)
    ensures !ok ==> hs.inbox == old(hs.inbox)
  {
    hide Settled, Hs.Accounted, Hs.Consistent, Hs.Hashed, ServersTurn;
    var hashed := hs.HashMessage(e);
    if !hashed {
      return false;
    }
    var extensions := ParseServerHelloExtensions(hs, e);
    if CompressionRefused in e.faults || !extensions || TrailingBytes in e.faults || SecretsMisfit in e.faults {
      return false;
    }
    hs.NextMessage();
    hs.clientState := if hs.session then ReadSessionTicket else ReadServerCertificate;
    ok := true;
  }

  lemma ObligingAccepts(offered: bool, e: Env)
    ensures Obliging(e) ==> ChoiceAcceptable(offered, e) && HelloAcceptable(e)
  {
  }

  /** A ServerHello below TLS 1.3. */
  method ReadTls12Hello(hs: Hs, e: Env) returns (ok: bool)
    requires hs.clientState == ReadServerHelloState && !hs.isServer && hs.Consistent() && ServersTurn(hs.transcript)
    requires hs.inbox != [] && hs.inbox[0].kind == ServerHello
    modifies hs`clientState, hs`session, hs`known, hs`transcript, hs`inbox, hs`log,
             hs`certificateStatusExpected, hs`ticketExpected
    ensures ok <==> !hs.earlyDataOffered && ChoiceAcceptable(old(hs.session), e) && HelloAcceptable(e)
    ensures ok ==> hs.Consistent() && SideOf(hs) == HelloTaken(Chosen(old(SideOf(hs)), e), e, old(hs.inbox)[0])
    ensures ok ==> hs.inbox == old(hs.inbox)[1..] && e.cipher.Some?
    ensures ok ==> hs.certificateStatusExpected == e.status && hs.ticketExpected == e.ticket
    ensures !ok ==> hs.inbox == old(hs.inbox)
    ensures !ok && hs.earlyDataOffered ==> StandsAt(hs, old(ViewOf(hs)))
  {
    hide Hs.Accounted, Hs.Consistent, ServersTurn, HelloAcceptable;
    if hs.earlyDataOffered {
      return false;
    }
    ok := ChooseSessionAndCipher(hs, e);
    if ok {
      ok := TakeServerHello(hs, e);
    }
  }

  /** Everything the ServerHello and its extensions decide. */
  method DoReadServerHello(hs: Hs, e: Env) returns (w: Wait, ghost ms: seq<Message>)
    requires Ready(hs, ReadServerHelloState)
    modifies hs`clientState, hs`session, hs`version, hs`known, hs`tls13, hs`transcript, hs`inbox, hs`log,
             hs`certificateStatusExpected, hs`ticketExpected
    ensures w == Ok || w == Error || w == ReadServerHello
    ensures w == Ok && !hs.tls13 ==>
              && hs.Consistent() && old(hs.inbox) == ms + hs.inbox
              && Move(old(SideOf(hs)), SideOf(hs), ms) && |ms| == 1
              && SideOf(hs) == HelloTaken(Chosen(old(SideOf(hs)), e), e, ms[0])
    ensures w == ReadServerHello <==> old(hs.inbox) == []
    ensures w == ReadServerHello ==> unchanged(hs)
    ensures w == Error <==> HelloFails(old(ViewOf(hs)), e)
    ensures w == Error && Obliging(e) ==> StandsAt(hs, old(ViewOf(hs)))
    ensures w == Ok ==> hs.version == e.version && (hs.tls13 <==> e.version >= TLS1_3)
    ensures w == Ok && hs.tls13 ==> hs.clientState == ClientTls13 && hs.inbox == old(hs.inbox)
    ensures w == Ok && !hs.tls13 ==> hs.certificateStatusExpected == e.status && hs.ticketExpected == e.ticket
  {
    hide Ready, ClientValid, Settled, Hs.Accounted, Hs.Consistent, Hs.Hashed, ServersTurn, Move;
    hide ChoiceAcceptable, HelloAcceptable, Obliging;
    Entered(hs, ReadServerHelloState);
    ms := [];
    ghost var v := SideOf(hs);
    var msg := hs.GetMessage();
    if msg.None? {
      return ReadServerHello, [];
    }
    if msg.value.kind != ServerHello {
      return Error, [];
    }
    if Unparsed in e.faults || VersionRefused in e.faults {
      return Error, [];
    }
    hs.version := e.version;
    if hs.version >= TLS1_3 {
      hs.clientState, hs.tls13 := ClientTls13, true;
      return Ok, [];
    }
    ObligingAccepts(hs.session, e);
    var taken := ReadTls12Hello(hs, e);
    if !taken {
      return Error, [];
    }
    HelloTakenMoves(v, e, msg.value);
    return Ok, [msg.value];
  }

  /** The TLS 1.3 machine is opaque. */
  method DoTls13(hs: Hs, e: Env) returns (w: Wait)
    requires Ready(hs, ClientTls13)
    modifies hs`clientState
    ensures w == e.tls13 && hs.tls13
    ensures hs.clientState == if w == Ok then FinishClientHandshake else ClientTls13
  {
    w := e.tls13;
    if w == Ok {
      hs.clientState := FinishClientHandshake;
    }
  }

  // ----- the server's first flight -----

  method DoReadServerCertificate(hs: Hs, e: Env) returns (w: Wait, ghost ms: seq<Message>)
    requires Ready(hs, ReadServerCertificate)
    modifies hs`clientState, hs`transcript, hs`inbox, hs`log, hs`known
    ensures w == Ok || w == Error || w == ReadMessage
    ensures w == Ok ==> hs.Consistent() && Move(old(SideOf(hs)), SideOf(hs), ms)
    ensures w == Ok ==> old(hs.inbox) == ms + hs.inbox
    ensures w == ReadMessage <==> old(CertAuth(SideOf(hs)) && hs.inbox == [])
    ensures w == Error <==> CertificateFails(old(ViewOf(hs)), e)
    ensures w == ReadMessage ==> unchanged(hs)
    ensures w == Error && Obliging(e) ==> StandsAt(hs, old(ViewOf(hs)))
    ensures w == Ok && ms != [] ==> hs.known.peerCerts == e.certs > 0
  {
    hide Ready, ClientValid, Settled, Hs.Accounted, Hs.Consistent, Hs.Hashed, ServersTurn;
    Entered(hs, ReadServerCertificate);
    EnteredFull(hs, ReadServerCertificate);
    ms := [];
    if !hs.known.cipher.value.CertAuth() {
      hs.clientState := ReadCertificateStatus;
      return Ok, [];
    }
    var msg := hs.GetMessage();
    if msg.None? {
      return ReadMessage, [];
    }
    if msg.value.kind != Certificate {
      return Error, [];
    }
    var hashed := hs.HashMessage(e);
    if !hashed {
      return Error, [];
    }
    if Unparsed in e.faults || e.certs == 0 || LeafRefused in e.faults {
      return Error, [];
    }
    hs.NextMessage();
    hs.known := hs.known.(peerCerts := e.certs, filled := hs.known.filled + {SERVER_CERTIFICATE});
    hs.clientState := ReadCertificateStatus;
    return Ok, [msg.value];
  }

  /** A server may announce a CertificateStatus and send none. */
  method DoReadCertificateStatus(hs: Hs, e: Env) returns (w: Wait, ghost ms: seq<Message>)
    requires Ready(hs, ReadCertificateStatus)
    modifies hs`clientState, hs`transcript, hs`inbox, hs`log, hs`known
    ensures w == Ok || w == Error || w == ReadMessage
    ensures w == Ok ==> hs.Consistent() && Move(old(SideOf(hs)), SideOf(hs), ms)
    ensures w == Ok ==> old(hs.inbox) == ms + hs.inbox
    ensures w == ReadMessage <==> hs.certificateStatusExpected && old(hs.inbox) == []
    ensures w == Error <==> StatusFails(old(ViewOf(hs)), e)
    ensures w == ReadMessage ==> unchanged(hs)
    ensures w == Error && Obliging(e) ==> StandsAt(hs, old(ViewOf(hs)))
    ensures w == Ok ==> (ms != [] <==> hs.certificateStatusExpected && old(hs.Comes(CertificateStatus)))
    ensures w == Ok ==> Looked(old(SideOf(hs)), hs.certificateStatusExpected, old(hs.inbox), ms)
  {
    hide Ready, ClientValid, Settled, Hs.Accounted, Hs.Consistent, Hs.Hashed, ServersTurn;
    Entered(hs, ReadCertificateStatus);
    EnteredFull(hs, ReadCertificateStatus);
    ms := [];
    if !hs.certificateStatusExpected {
      hs.clientState := VerifyServerCertificate;
      return Ok, [];
    }
    var msg := hs.GetMessage();
    if msg.None? {
      return ReadMessage, [];
    }
    if msg.value.kind != CertificateStatus {
      hs.clientState := VerifyServerCertificate;
      return Ok, [];
    }
    var hashed := hs.HashMessage(e);
    if !hashed {
      return Error, [];
    }
    if Unparsed in e.faults {
      return Error, [];
    }
    hs.NextMessage();
    hs.known := hs.known.(filled := hs.known.filled + {STATUS});
    hs.clientState := VerifyServerCertificate;
    return Ok, [msg.value];
  }

  method DoVerifyServerCertificate(hs: Hs, e: Env) returns (w: Wait, ghost ms: seq<Message>)
    requires Ready(hs, VerifyServerCertificate)
    modifies hs`clientState, hs`known
    ensures w == if !old(CertAuth(SideOf(hs))) then Ok
                 else match e.verdict case Good => Ok case Invalid => Error case Undecided => VerifyPending
    ensures w == Ok ==> hs.Consistent() && Move(old(SideOf(hs)), SideOf(hs), ms)
    ensures w == VerifyPending ==> unchanged(hs)
  {
    hide Ready, ClientValid, Settled, Hs.Accounted, Hs.Consistent, Hs.Hashed, ServersTurn;
    Entered(hs, VerifyServerCertificate);
    EnteredFull(hs, VerifyServerCertificate);
    ms := [];
    if !hs.known.cipher.value.CertAuth() {
      hs.clientState := ReadServerKeyExchange;
      return Ok, [];
    }
    w := hs.VerifyPeerCert(e);
    if w != Ok {
      return w, [];
    }
    hs.clientState := ReadServerKeyExchange;
  }

  /** The parameters, then the signature over them. */
  method CheckKeyExchange(c: Suite, e: Env) returns (ok: bool)
    ensures ok <==> KeyExchangeAccepted(c, e)
  {
    if c.auth == APsk && HintRefused in e.faults {
      return false;
    }
    if c.mkey == KEcdhe {
      if ParamsRefused in e.faults {
        return false;
      }
    } else if c.mkey != KPsk {
      return false;
    }
    if c.CertAuth() {
      if BadSignature in e.faults {
        return false;
      }
    } else if TrailingBytes in e.faults {
      return false;
    }
    ok := true;
  }

  /** ECDHE requires a ServerKeyExchange, RSA key exchange refuses one; with
      certificates its signature is checked. */
  method DoReadServerKeyExchange(hs: Hs, e: Env) returns (w: Wait, ghost ms: seq<Message>)
    requires Ready(hs, ReadServerKeyExchange)
    modifies hs`clientState, hs`transcript, hs`inbox, hs`log, hs`known
    ensures w == Ok || w == Error || w == ReadMessage
    ensures w == Ok ==> hs.Consistent() && Move(old(SideOf(hs)), SideOf(hs), ms)
    ensures w == Ok ==> old(hs.inbox) == ms + hs.inbox
    ensures w == ReadMessage <==> old(hs.inbox) == []
    ensures w == Error <==> KeyExchangeFails(old(ViewOf(hs)), e)
    ensures w == ReadMessage ==> unchanged(hs)
    ensures w == Error && Obliging(e) ==> StandsAt(hs, old(ViewOf(hs)))
    ensures w == Ok ==> (ms != [] <==> old(hs.Comes(ServerKeyExchange)))
    ensures w == Ok ==> Looked(old(SideOf(hs)), hs.certificateStatusExpected, old(hs.inbox), ms)
  {
    hide Ready, ClientValid, Settled, Hs.Accounted, Hs.Consistent, Hs.Hashed, ServersTurn;
    Entered(hs, ReadServerKeyExchange);
    EnteredFull(hs, ReadServerKeyExchange);
    ms := [];
    var msg := hs.GetMessage();
    if msg.None? {
      return ReadMessage, [];
    }
    if msg.value.kind != ServerKeyExchange {
      if hs.known.cipher.value.RequiresServerKeyExchange() {
        return Error, [];
      }
      hs.clientState := ReadCertificateRequest;
      return Ok, [];
    }
    var hashed := hs.HashMessage(e);
    if !hashed {
      return Error, [];
    }
    var accepted := CheckKeyExchange(hs.known.cipher.value, e);
    if !accepted {
      return Error, [];
    }
    hs.NextMessage();
    hs.known := hs.known.(keyExchangeSigned := hs.known.cipher.value.CertAuth(),
                          filled := hs.known.filled + {SERVER_KEY_EXCHANGE});
    hs.clientState := ReadCertificateRequest;
    return Ok, [msg.value];
  }

  method DoReadCertificateRequest(hs: Hs, e: Env) returns (w: Wait, ghost ms: seq<Message>)
    requires Ready(hs, ReadCertificateRequest)
    modifies hs`clientState, hs`transcript, hs`inbox, hs`log, hs`known
    ensures w == Ok || w == Error || w == ReadMessage
    ensures w == Ok ==> hs.Consistent() && Move(old(SideOf(hs)), SideOf(hs), ms)
    ensures w == Ok ==> old(hs.inbox) == ms + hs.inbox
    ensures w == ReadMessage <==> old(CertAuth(SideOf(hs)) && hs.inbox == [])
    ensures w == Error <==> RequestFails(old(ViewOf(hs)), e)
    ensures w == ReadMessage ==> unchanged(hs)
    ensures w == Error && Obliging(e) ==> StandsAt(hs, old(ViewOf(hs)))
    ensures w == Ok ==> (ms != [] <==> old(CertAuth(SideOf(hs)) && hs.Comes(CertificateRequest)))
    ensures w == Ok ==> Looked(old(SideOf(hs)), hs.certificateStatusExpected, old(hs.inbox), ms)
  {
    hide Ready, ClientValid, Settled, Hs.Accounted, Hs.Consistent, Hs.Hashed, ServersTurn;
    Entered(hs, ReadCertificateRequest);
    EnteredFull(hs, ReadCertificateRequest);
    ms := [];
    if !hs.known.cipher.value.CertAuth() {
      hs.clientState := ReadServerHelloDone;
      return Ok, [];
    }
    var msg := hs.GetMessage();
    if msg.None? {
      return ReadMessage, [];
    }
    if msg.value.kind == ServerHelloDone {
      hs.clientState := ReadServerHelloDone;
      return Ok, [];
    }
    if msg.value.kind != CertificateRequest {
      return Error, [];
    }
    var hashed := hs.HashMessage(e);
    if !hashed {
      return Error, [];
    }
    if Unparsed in e.faults {
      return Error, [];
    }
    hs.NextMessage();
    hs.known := hs.known.(certRequest := true, filled := hs.known.filled + {CERTIFICATE_REQUEST});
    hs.clientState := ReadServerHelloDone;
    return Ok, [msg.value];
  }

  method DoReadServerHelloDone(hs: Hs, e: Env) returns (w: Wait, ghost ms: seq<Message>)
    requires Ready(hs, ReadServerHelloDone)
    modifies hs`clientState, hs`transcript, hs`inbox, hs`log
    ensures w == Ok || w == Error || w == ReadMessage
    ensures w == Ok ==> hs.Consistent() && Move(old(SideOf(hs)), SideOf(hs), ms)
    ensures w == Ok ==> old(hs.inbox) == ms + hs.inbox
    ensures w == ReadMessage <==> old(hs.inbox) == []
    ensures w == Error <==> HelloDoneFails(old(ViewOf(hs)), e)
    ensures w == ReadMessage ==> unchanged(hs)
    ensures w == Error && Obliging(e) ==> StandsAt(hs, old(ViewOf(hs)))
  {
    hide Ready, ClientValid, Settled, Hs.Accounted, Hs.Consistent, Hs.Hashed, ServersTurn;
    Entered(hs, ReadServerHelloDone);
    EnteredFull(hs, ReadServerHelloDone);
    ms := [];
    var msg := hs.GetMessage();
    if msg.None? {
      return ReadMessage, [];
    }
    if msg.value.kind != ServerHelloDone {
      return Error, [];
    }
    var hashed := hs.HashMessage(e);
    if !hashed {
      return Error, [];
    }
    if msg.value.body != Plain([]) {
      return Error, [];
    }
    hs.NextMessage();
    hs.clientState := SendClientCertificate;
    return Ok, [msg.value];
  }

  // ----- the client's flights -----

  /** A requested certificate is answered, if only with an empty chain. */
  method DoSendClientCertificate(hs: Hs, e: Env) returns (w: Wait, ghost ms: seq<Message>)
    requires Ready(hs, SendClientCertificate)
    modifies hs`clientState, hs`transcript, hs`flight, hs`log, hs`known, hs`localCert
    ensures w == Ok || w == Error || w == X509Lookup
    ensures w == X509Lookup <==> old(hs.known).certRequest && CallbackFailed !in e.faults && e.later
    ensures w == Error <==> SendCertificateFails(old(ViewOf(hs)), e)
    ensures w == Ok ==> hs.Consistent() && Move(old(SideOf(hs)), SideOf(hs), ms)
    ensures w == Ok ==> hs.flight == old(hs.flight) + Items(ms) && (ms != [] ==> ms[0].body == Plain(e.body))
    ensures w == Ok ==> hs.localCert == if ms != [] then e.localCert else old(hs.localCert)
    ensures w == X509Lookup ==> unchanged(hs)
  {
    hide Ready, ClientValid, Settled, Hs.Accounted, Hs.Consistent, Hs.Hashed, ServersTurn;
    Entered(hs, SendClientCertificate);
    EnteredFull(hs, SendClientCertificate);
    ms := [];
    if !hs.known.certRequest {
      hs.clientState := SendClientKeyExchange;
      return Ok, [];
    }
    if CallbackFailed in e.faults {
      return Error, [];
    }
    if e.later {
      return X509Lookup, [];
    }
    hs.localCert := e.localCert;
    if CertificateUnselected in e.faults {
      return Error, [];
    }
    var m := Message(Certificate, Plain(e.body));
    var added := hs.AddMessage(m, e);
    if !added {
      return Error, [];
    }
    OneItem(m);
    hs.known := hs.known.(filled := hs.known.filled + {CLIENT_CERTIFICATE});
    hs.clientState := SendClientKeyExchange;
    return Ok, [m];
  }

  /** The message is in the transcript before the master secret is derived. */
  method DoSendClientKeyExchange(hs: Hs, e: Env) returns (w: Wait, ghost ms: seq<Message>)
    requires Ready(hs, SendClientKeyExchange)
    modifies hs`clientState, hs`transcript, hs`flight, hs`log, hs`known
    ensures w == Ok || w == Error
    ensures w == Error <==> SendKeyExchangeFails(e)
    ensures w == Ok ==> hs.Consistent() && Move(old(SideOf(hs)), SideOf(hs), ms)
    ensures w == Ok ==> hs.flight == old(hs.flight) + Items(ms) && ms == [Message(ClientKeyExchange, Plain(e.body))]
  {
    hide Ready, ClientValid, Settled, Hs.Accounted, Hs.Consistent, Hs.Hashed, ServersTurn;
    Entered(hs, SendClientKeyExchange);
    EnteredFull(hs, SendClientKeyExchange);
    ms := [];
    if SecretsFailed in e.faults {
      return Error, [];
    }
    var m := Message(ClientKeyExchange, Plain(e.body));
    var added := hs.AddMessage(m, e);
    if !added {
      return Error, [];
    }
    OneItem(m);
    var derived := hs.GenerateMasterSecret(e);
    if !derived {
      return Error, [];
    }
    hs.clientState := SendClientCertificateVerify;
    return Ok, [m];
  }

  /** The signature covers the transcript so far. */
  method DoSendClientCertificateVerify(hs: Hs, e: Env) returns (w: Wait, ghost ms: seq<Message>)
    requires Ready(hs, SendClientCertificateVerify)
    modifies hs`clientState, hs`transcript, hs`flight, hs`log, hs`known
    ensures w == Ok || w == Error || w == PrivateKeyOperation
    ensures w == Ok ==> hs.Consistent() && Move(old(SideOf(hs)), SideOf(hs), ms)
    ensures w == Ok ==> hs.flight == old(hs.flight) + Items(ms)
    ensures w == PrivateKeyOperation ==> unchanged(hs)
    ensures w == Error <==> SendVerifyFails(old(ViewOf(hs)), e)
    ensures w == PrivateKeyOperation <==>
              old(hs.known).certRequest && hs.localCert && SigningFailed !in e.faults && e.later
    ensures w == Ok ==> (ms != [] <==> old(hs.known).certRequest && hs.localCert)
  {
    hide Ready, ClientValid, Settled, Hs.Accounted, Hs.Consistent, Hs.Hashed, ServersTurn;
    Entered(hs, SendClientCertificateVerify);
    EnteredFull(hs, SendClientCertificateVerify);
    ms := [];
    if !hs.known.certRequest || !hs.localCert {
      hs.clientState := SendClientFinished;
      return Ok, [];
    }
    if SigningFailed in e.faults {
      return Error, [];
    }
    if e.later {
      return PrivateKeyOperation, [];
    }
    var m := Message(CertificateVerify, Signed(hs.transcript));
    var added := hs.AddMessage(m, e);
    if !added {
      return Error, [];
    }
    OneItem(m);
    hs.known := hs.known.(filled := hs.known.filled + {VERIFY});
    hs.clientState := SendClientFinished;
    return Ok, [m];
  }

  /** NextProtocol or Channel ID, if negotiated. */
  method AddIfNegotiated(hs: Hs, wanted: bool, kind: Kind, place: nat, e: Env)
    returns (ok: bool, ghost ms: seq<Message>)
    requires hs.Consistent() && hs.offset == 0 && ServersTurn(hs.transcript) == hs.isServer
    requires kind == NextProto || kind == ChannelId
    modifies hs`transcript, hs`flight, hs`log, hs`known
    ensures ok ==> hs.Consistent() && ServersTurn(hs.transcript) == hs.isServer
    ensures ok <==> !wanted || Unadded !in e.faults
    ensures ok ==> |ms| == (if wanted then 1 else 0) && (wanted ==> ms[0].kind == kind)
    ensures ok ==> hs.transcript == old(hs.transcript) + ms && hs.flight == old(hs.flight) + Items(ms)
    ensures ok ==> hs.known == old(hs.known).(filled := old(hs.known).filled + (if wanted then {place} else {}))
  {
    hide Hs.Accounted, Hs.Consistent, ServersTurn;
    ms := [];
    if !wanted {
      assert hs.known.filled == hs.known.filled + {};
      return true, [];
    }
    var m := Message(kind, Plain(e.body));
    var added := hs.AddMessage(m, e);
    if !added {
      return false, [];
    }
    OneItem(m);
    hs.known := hs.known.(filled := hs.known.filled + {place});
    return true, [m];
  }

  lemma FinalItems(ps: seq<Message>, cs: seq<Message>, m: Message)
    ensures Items(ps + cs + [m]) == Items(ps) + Items(cs) + [Handshake(m)]
  {
    OneItem(m);
    ItemsAppend(ps, cs);
    ItemsAppend(ps + cs, [m]);
  }

  /** The flight after ChangeCipherSpec: what was negotiated, then Finished. */
  method AddFinalFlight(hs: Hs, e: Env) returns (ok: bool, ghost ms: seq<Message>)
    requires !hs.isServer && hs.Consistent() && hs.offset == 0 && !ServersTurn(hs.transcript)
    requires hs.clientState == SendClientFinished
    modifies hs`transcript, hs`flight, hs`log, hs`known
    ensures ok <==> Unadded !in e.faults && Unlogged !in e.faults
    ensures ok ==> hs.Consistent() && FinalFlight(old(SideOf(hs)), ms) && hs.transcript == old(hs.transcript) + ms
    ensures ok ==> hs.flight == old(hs.flight) + Items(ms)
    ensures ok ==> hs.known == FinalKnown(old(hs.known), hs.session)
  {
    hide Hs.Accounted, Hs.Consistent, ServersTurn, FinalFlight, Items;
    ghost var v := SideOf(hs);
    ms := [];
    var proto;
    ghost var ps;
    proto, ps := AddIfNegotiated(hs, hs.known.nextProtoSeen, NextProto, FirstPlace(hs.session), e);
    if !proto {
      return false, [];
    }
    var channel;
    ghost var cs;
    channel, cs := AddIfNegotiated(hs, hs.known.channelIdValid, ChannelId, FirstPlace(hs.session) + 1, e);
    if !channel {
      return false, [];
    }
    ok := hs.SendFinished(e);
    ghost var m := FinishedOf(false, v.t + ps + cs);
    FinalFlightOf(v, ps, cs);
    FinalItems(ps, cs, m);
    ms := ps + cs + [m];
  }

  /** ChangeCipherSpec, then everything under the new keys. */
  method DoSendClientFinished(hs: Hs, e: Env) returns (w: Wait, ghost ms: seq<Message>)
    requires Ready(hs, SendClientFinished)
    modifies hs`clientState, hs`transcript, hs`flight, hs`log, hs`known
    ensures w == Flush || w == Error || w == ChannelIdLookup
    ensures w == ChannelIdLookup <==> old(hs.known).channelIdValid && CallbackFailed !in e.faults && e.later
    ensures w == Error <==> SendFinishedFails(old(ViewOf(hs)), e)
    ensures w == Flush ==> hs.Consistent() && Move(old(SideOf(hs)), SideOf(hs), ms)
    ensures w == ChannelIdLookup ==> unchanged(hs)
    ensures w == Flush ==> hs.flight == old(hs.flight) + [ChangeCipherSpec] + Items(ms)
  {
    hide Ready, ClientValid, Settled, Hs.Accounted, Hs.Consistent, Hs.Hashed, ServersTurn;
    Entered(hs, SendClientFinished);
    ms := [];
    if hs.known.channelIdValid {
      if CallbackFailed in e.faults {
        return Error, [];
      }
      if e.later {
        return ChannelIdLookup, [];
      }
    }
    var changed := hs.AddChangeCipherSpec(e);
    if !changed || NoKeys in e.faults {
      return Error, [];
    }
    var sent;
    sent, ms := AddFinalFlight(hs, e);
    if !sent {
      return Error, [];
    }
    hs.clientState := FinishFlight;
    return Flush, ms;
  }

  /** can_false_start */
  method CanFalseStart(hs: Hs, e: Env) returns (ok: bool)
    requires hs.known.cipher.Some?
    ensures ok <==>
              && !hs.dtls && hs.version == TLS1_2
              && hs.known.cipher.value.mkey == KEcdhe && hs.known.cipher.value.aead && e.protocolChosen
  {
    if hs.dtls || hs.version != TLS1_2 || hs.known.cipher.value.mkey != KEcdhe || !hs.known.cipher.value.aead {
      return false;
    }
    ok := e.protocolChosen;
  }

  lemma CipherChosen(hs: Hs)
    requires Ready(hs, FinishFlight)
    ensures hs.known.cipher.Some?
  {
  }

  /** False Start: the application may write before the server's Finished. */
  method DoFinishFlight(hs: Hs, e: Env) returns (w: Wait, ghost ms: seq<Message>)
    requires Ready(hs, FinishFlight)
    modifies hs`clientState
    ensures w == Ok || w == Error || w == EarlyReturn
    ensures w != Error ==> hs.Consistent() && Move(old(SideOf(hs)), SideOf(hs), ms)
    ensures w == EarlyReturn ==> Early(hs)
    ensures w == Error <==> !hs.session && HashesUnrecorded in e.faults
    ensures hs.known.cipher.Some?
    ensures w != Error ==>
      (w == EarlyReturn <==>
        && !hs.session && e.falseStart && e.protocolChosen && !hs.dtls && hs.version == TLS1_2
        && hs.known.cipher.value.mkey == KEcdhe && hs.known.cipher.value.aead)
  {
    hide Ready, ClientValid, Settled, Hs.Accounted, Hs.Consistent, Hs.Hashed, ServersTurn;
    Entered(hs, FinishFlight);
    CipherChosen(hs);
    ms := [];
    if hs.session {
      hs.clientState := FinishClientHandshake;
      return Ok, [];
    }
    if HashesUnrecorded in e.faults {
      return Error, [];
    }
    hs.clientState := ReadSessionTicket;
    var can := CanFalseStart(hs, e);
    return if e.falseStart && can then EarlyReturn else Ok, [];
  }

  /** A server that announced a ticket may still send an empty one. */
  method DoReadSessionTicket(hs: Hs, e: Env) returns (w: Wait, ghost ms: seq<Message>)
    requires Ready(hs, ReadSessionTicket)
    modifies hs`clientState, hs`transcript, hs`inbox, hs`log, hs`known, hs`ticketExpected
    ensures w == Error || w == ReadMessage || w == ReadChangeCipherSpec
    ensures w == ReadChangeCipherSpec ==> hs.Consistent() && Move(old(SideOf(hs)), SideOf(hs), ms)
    ensures w == ReadChangeCipherSpec ==> old(hs.inbox) == ms + hs.inbox
    ensures w == ReadMessage <==> old(hs.ticketExpected && hs.inbox == [])
    ensures w == Error <==> TicketFails(old(ViewOf(hs)), e)
    ensures w == ReadMessage ==> unchanged(hs)
    ensures w == Error && Obliging(e) ==> StandsAt(hs, old(ViewOf(hs)))
    ensures hs.ticketExpected == (old(hs.ticketExpected) && !(w == ReadChangeCipherSpec && e.ticketEmpty))
    ensures w == ReadChangeCipherSpec ==> (ms != [] <==> old(hs.ticketExpected))
    ensures w == ReadChangeCipherSpec ==> hs.clientState == ClientProcessChangeCipherSpec
  {
    hide Ready, ClientValid, Settled, Hs.Accounted, Hs.Consistent, Hs.Hashed, ServersTurn;
    Entered(hs, ReadSessionTicket);
    ms := [];
    if !hs.ticketExpected {
      hs.clientState := ClientProcessChangeCipherSpec;
      return ReadChangeCipherSpec, [];
    }
    var msg := hs.GetMessage();
    if msg.None? {
      return ReadMessage, [];
    }
    if msg.value.kind != NewSessionTicket {
      return Error, [];
    }
    var hashed := hs.HashMessage(e);
    if !hashed {
      return Error, [];
    }
    if Unparsed in e.faults {
      return Error, [];
    }
    if e.ticketEmpty {
      hs.ticketExpected := false;
    } else if Unstored in e.faults {
      return Error, [];
    }
    hs.NextMessage();
    hs.known := hs.known.(filled := hs.known.filled + {TicketPlace(hs.session)});
    hs.clientState := ClientProcessChangeCipherSpec;
    return ReadChangeCipherSpec, [msg.value];
  }

  method DoProcessChangeCipherSpec(hs: Hs, e: Env) returns (w: Wait, ghost ms: seq<Message>)
    requires Ready(hs, ClientProcessChangeCipherSpec)
    modifies hs`clientState
    ensures w == if NoKeys in e.faults then Error else Ok
    ensures w == Ok ==> hs.Consistent() && Move(old(SideOf(hs)), SideOf(hs), ms)
  {
    hide Ready, ClientValid, Settled, Hs.Accounted, Hs.Consistent, Hs.Hashed, ServersTurn;
    Entered(hs, ClientProcessChangeCipherSpec);
    ms := [];
    if NoKeys in e.faults {
      return Error, [];
    }
    hs.clientState := ReadServerFinished;
    return Ok, [];
  }

  method DoReadServerFinished(hs: Hs, e: Env) returns (w: Wait, ghost ms: seq<Message>)
    requires Ready(hs, ReadServerFinished)
    modifies hs`clientState, hs`transcript, hs`inbox, hs`log, hs`known
    ensures w == Ok || w == Error || w == ReadMessage
    ensures w == Ok ==> hs.Consistent() && Move(old(SideOf(hs)), SideOf(hs), ms)
    ensures w == Ok ==> old(hs.inbox) == ms + hs.inbox
    ensures w == ReadMessage <==> old(hs.inbox) == []
    ensures w == Error <==> FinishedFails(old(ViewOf(hs)), e)
    ensures w == ReadMessage ==> unchanged(hs)
    ensures w == Error && Obliging(e) ==> StandsAt(hs, old(ViewOf(hs)))
  {
    hide Ready, ClientValid, Settled, Hs.Accounted, Hs.Consistent, Hs.Hashed, ServersTurn;
    Entered(hs, ReadServerFinished);
    ms := [];
    ghost var t := hs.transcript;
    w := hs.GetFinished(e);
    if w != Ok {
      return w, [];
    }
    hs.clientState := if hs.session then SendClientFinished else FinishClientHandshake;
    return Ok, [FinishedOf(true, t)];
  }

  method DoFinishClientHandshake(hs: Hs, e: Env) returns (w: Wait)
    requires Ready(hs, FinishClientHandshake)
    modifies hs`clientState
    ensures w == if !hs.session && Uncopied in e.faults then Error else Ok
    ensures w == Ok ==> hs.clientState == ClientDone && Move(old(SideOf(hs)), SideOf(hs), [])
  {
    if !hs.session && Uncopied in e.faults {
      return Error;
    }
    hs.clientState := ClientDone;
    w := Ok;
  }

  // ----- the driver -----

  /** Why the application may already write: it offered early data, or this is
      False Start, with the client's Finished sent and the server's still to be
      checked. */
  predicate Early(hs: Hs)
    reads hs`clientState, hs`session, hs`version, hs`known, hs`earlyDataOffered
  {
    || hs.earlyDataOffered
    || (hs.clientState == ReadSessionTicket && !hs.session && !hs.dtls && hs.version == TLS1_2
        && hs.known.cipher.Some? && hs.known.cipher.value.mkey == KEcdhe && hs.known.cipher.value.aead)
  }

  /** What every step keeps, unless it fails: the invariant, and a rank that
      falls on ssl_hs_ok and never rises. Waiting for a message means there is
      none, and that the server's Finished is still to come. */
  ghost predicate After(hs: Hs, w: Wait, rank: nat)
    reads hs
  {
    && ClientValid(hs) && hs.offset == 0
    && (if w == Ok then Rank(hs.clientState, hs.session) < rank else Rank(hs.clientState, hs.session) <= rank)
    && ((w == ReadMessage || w == ReadServerHello) && !hs.tls13 ==> hs.inbox == [])
    && (Reads(w) && !hs.tls13 ==> hs.known.checkedOver.None?)
    && (w == EarlyReturn && !hs.tls13 ==> Early(hs))
  }

  lemma Moved(hs: Hs, w: Wait, v: Side, ms: seq<Message>)
    requires !hs.isServer && !hs.tls13 && hs.offset == 0 && hs.Consistent()
    requires MayPass(v.s) ==> HasPassedNone(hs)
    requires Settled(v) && Move(v, SideOf(hs), ms) && w != ReadMessage && w != ReadServerHello
    requires w == EarlyReturn ==> Early(hs)
    requires w == ReadChangeCipherSpec ==> hs.clientState == ClientProcessChangeCipherSpec
    ensures After(hs, w, Rank(v.s, v.resumed))
  {
    hide Settled, Move, NonePassed, Rank, Hs.Accounted, Hs.Consistent;
    MoveLeads(v, SideOf(hs), ms);
    if !MayPass(v.s) {
      PassesNothing(v, SideOf(hs), ms, hs.dtls, hs.channel.receivedBefore > 0, hs.certificateStatusExpected, hs.inbox);
    }
    if w == ReadChangeCipherSpec {
      FinishedToCome(SideOf(hs));
    }
  }

  /** In the server's first flight, having looked at what it leaves in place. */
  lemma MovedPast(hs: Hs, w: Wait, x: View, restarted: bool, ms: seq<Message>)
    requires !hs.isServer && !hs.tls13 && hs.offset == 0 && hs.Consistent() && w == Ok
    requires FullOnly(x.side.s) && Settled(x.side) && Move(x.side, SideOf(hs), ms)
    requires NonePassed(x.side, x.dtls, restarted, x.status, x.inbox) && x.dtls == hs.dtls
    requires (Looks(x.side.s) ==> Looked(x.side, x.status, x.inbox, ms)) && (ms == [] ==> hs.inbox == x.inbox)
    requires hs.certificateStatusExpected == x.status && restarted == (hs.channel.receivedBefore > 0)
    ensures After(hs, w, Rank(x.side.s, x.side.resumed))
  {
    hide Settled, Move, NonePassed, Looked, Rank, Hs.Accounted, Hs.Consistent;
    StillNonePassed(x.side, SideOf(hs), ms, x.dtls, restarted, x.status, x.inbox, hs.inbox);
    Moved(hs, w, x.side, ms);
  }

  /** What is still in the inbox came in. */
  lemma InboxArrived(hs: Hs)
    requires ClientValid(hs) && !hs.tls13 && NoVerifyRequest(hs.channel.arrived)
    ensures hs.inbox != [] ==> hs.inbox[0].kind != HelloVerifyRequest
  {
    if hs.inbox != [] {
      assert hs.inbox[0] == hs.channel.arrived[hs.channel.receivedBefore..][|hs.log.received|];
    }
  }

  /** The states before the ServerHello. */
  method HelloStep(hs: Hs, e: Env) returns (w: Wait)
    requires ClientValid(hs) && hs.offset == 0 && InHellos(hs.clientState)
    modifies hs
    ensures w != Error ==> After(hs, w, Rank(old(hs.clientState), old(hs.session)))
    ensures hs.tls13 == old(hs.tls13) && hs.wait == old(hs.wait) && Ordinary(w, old(ViewOf(hs)), e)
    ensures w == Error && Obliging(e) ==> StandsAt(hs, old(ViewOf(hs))) && hs.channel == old(hs.channel)
    ensures hs.channel.wire == old(hs.channel.wire) && hs.channel.arrived == old(hs.channel.arrived)
    ensures NoVerifyRequest(old(hs.channel.arrived)) ==> hs.channel == old(hs.channel)
  {
    hide Settled, Move, NonePassed, Ordinary, StandsAt, Obliging, Items;
    hide Hs.Accounted, Hs.Consistent, ConnectFails, EarlyDataFails, VerifyRequestFails;
    ghost var x, ms := ViewOf(hs), [];
    FinishedToCome(x.side);
    if hs.clientState == StartConnect {
      w, ms := DoStartConnect(hs, e);
    } else if hs.clientState == EnterEarlyData {
      w, ms := DoEnterEarlyData(hs, e);
    } else {
      if NoVerifyRequest(hs.channel.arrived) {
        InboxArrived(hs);
      }
      w, ms := DoReadHelloVerifyRequest(hs, e);
    }
    if w == Ok || w == Flush || w == EarlyReturn {
      Moved(hs, w, x.side, ms);
    }
    FailsOrdinary(w, x, e);
    OnlyReadsRefuse(x, e);
  }

  /** The ServerHello, and TLS 1.3. */
  method VersionStep(hs: Hs, e: Env) returns (w: Wait)
    requires ClientValid(hs) && hs.offset == 0 && InVersions(hs.clientState)
    modifies hs
    ensures w != Error ==> After(hs, w, Rank(old(hs.clientState), old(hs.session)))
    ensures hs.wait == old(hs.wait) && hs.channel == old(hs.channel) && (old(hs.tls13) ==> hs.tls13)
    ensures hs.tls13 || Ordinary(w, old(ViewOf(hs)), e)
    ensures w == Error && !hs.tls13 && Obliging(e) ==> StandsAt(hs, old(ViewOf(hs)))
  {
    hide Settled, Move, NonePassed, Ordinary, StandsAt, Items, Hs.Accounted, Hs.Consistent, HelloFails;
    ghost var x, ms := ViewOf(hs), [];
    if hs.clientState == ReadServerHelloState {
      FinishedToCome(x.side);
      w, ms := DoReadServerHello(hs, e);
      if w == Ok && !hs.tls13 {
        Moved(hs, w, x.side, ms);
      }
      FailsOrdinary(w, x, e);
    } else {
      if !hs.tls13 {
        NeverTls13(x.side);
      }
      w := DoTls13(hs, e);
    }
  }

  /** The states of the server's first flight. */
  method ServerFlightStep(hs: Hs, e: Env) returns (w: Wait)
    requires ClientValid(hs) && hs.offset == 0 && InServerFlight(hs.clientState)
    modifies hs
    ensures w != Error ==> After(hs, w, Rank(old(hs.clientState), old(hs.session)))
    ensures hs.tls13 == old(hs.tls13) && hs.wait == old(hs.wait) && hs.channel == old(hs.channel)
    ensures Ordinary(w, old(ViewOf(hs)), e)
    ensures w == Error && Obliging(e) ==> StandsAt(hs, old(ViewOf(hs)))
  {
    hide Settled, Move, NonePassed, Ordinary, StandsAt, Items, Looked;
    hide Hs.Accounted, Hs.Consistent, CertificateFails, StatusFails, KeyExchangeFails, RequestFails, HelloDoneFails;
    ghost var x, restarted, ms := ViewOf(hs), hs.channel.receivedBefore > 0, [];
    FinishedToCome(x.side);
    if hs.clientState == ReadServerCertificate {
      w, ms := DoReadServerCertificate(hs, e);
    } else if hs.clientState == ReadCertificateStatus {
      w, ms := DoReadCertificateStatus(hs, e);
    } else if hs.clientState == VerifyServerCertificate {
      w, ms := DoVerifyServerCertificate(hs, e);
    } else if hs.clientState == ReadServerKeyExchange {
      w, ms := DoReadServerKeyExchange(hs, e);
    } else if hs.clientState == ReadCertificateRequest {
      w, ms := DoReadCertificateRequest(hs, e);
    } else {
      w, ms := DoReadServerHelloDone(hs, e);
    }
    if w == Ok {
      MovedPast(hs, w, x, restarted, ms);
    }
    FailsOrdinary(w, x, e);
  }

  /** The states of the client's flight in a full handshake. */
  method ClientFlightStep(hs: Hs, e: Env) returns (w: Wait)
    requires ClientValid(hs) && hs.offset == 0 && InClientFlight(hs.clientState)
    modifies hs
    ensures w != Error ==> After(hs, w, Rank(old(hs.clientState), old(hs.session)))
    ensures hs.tls13 == old(hs.tls13) && hs.wait == old(hs.wait) && hs.channel == old(hs.channel)
    ensures Ordinary(w, old(ViewOf(hs)), e)
    ensures w == Error && Obliging(e) ==> StandsAt(hs, old(ViewOf(hs)))
  {
    hide Settled, Move, NonePassed, Ordinary, StandsAt, Obliging, Items;
    hide Hs.Accounted, Hs.Consistent, SendCertificateFails, SendKeyExchangeFails, SendVerifyFails;
    ghost var x, ms := ViewOf(hs), [];
    if hs.clientState == SendClientCertificate {
      w, ms := DoSendClientCertificate(hs, e);
    } else if hs.clientState == SendClientKeyExchange {
      w, ms := DoSendClientKeyExchange(hs, e);
    } else {
      w, ms := DoSendClientCertificateVerify(hs, e);
    }
    if w == Ok {
      Moved(hs, w, x.side, ms);
    }
    FailsOrdinary(w, x, e);
    OnlyReadsRefuse(x, e);
  }

  /** The states that read around the two Finished messages. */
  method ReadFinishStep(hs: Hs, e: Env) returns (w: Wait)
    requires ClientValid(hs) && hs.offset == 0 && InReadFinish(hs.clientState)
    modifies hs
    ensures w != Error ==> After(hs, w, Rank(old(hs.clientState), old(hs.session)))
    ensures hs.tls13 == old(hs.tls13) && hs.wait == old(hs.wait) && hs.channel == old(hs.channel)
    ensures Ordinary(w, old(ViewOf(hs)), e)
    ensures w == Error && Obliging(e) ==> StandsAt(hs, old(ViewOf(hs)))
  {
    hide Settled, Move, NonePassed, Ordinary, StandsAt, Items;
    hide Hs.Accounted, Hs.Consistent, TicketFails, FinishedFails;
    ghost var x, ms := ViewOf(hs), [];
    FinishedToCome(x.side);
    if hs.clientState == ReadSessionTicket {
      w, ms := DoReadSessionTicket(hs, e);
    } else if hs.clientState == ClientProcessChangeCipherSpec {
      w, ms := DoProcessChangeCipherSpec(hs, e);
    } else {
      w, ms := DoReadServerFinished(hs, e);
    }
    if w == Ok || w == ReadChangeCipherSpec {
      Moved(hs, w, x.side, ms);
    }
    FailsOrdinary(w, x, e);
  }

  /** The states that do not. */
  method SendFinishStep(hs: Hs, e: Env) returns (w: Wait)
    requires ClientValid(hs) && hs.offset == 0 && InSendFinish(hs.clientState)
    modifies hs
    ensures w != Error ==> After(hs, w, Rank(old(hs.clientState), old(hs.session)))
    ensures hs.tls13 == old(hs.tls13) && hs.wait == old(hs.wait) && hs.channel == old(hs.channel)
    ensures Ordinary(w, old(ViewOf(hs)), e)
    ensures w == Error && Obliging(e) ==> StandsAt(hs, old(ViewOf(hs)))
  {
    hide Settled, Move, NonePassed, Ordinary, StandsAt, Obliging, Items;
    hide Hs.Accounted, Hs.Consistent, SendFinishedFails;
    ghost var x, ms := ViewOf(hs), [];
    if hs.clientState == SendClientFinished {
      w, ms := DoSendClientFinished(hs, e);
    } else {
      w, ms := DoFinishFlight(hs, e);
    }
    if w == Ok || w == Flush || w == EarlyReturn {
      Moved(hs, w, x.side, ms);
    }
    FailsOrdinary(w, x, e);
    OnlyReadsRefuse(x, e);
  }

  /** The last state, of TLS 1.3 too. */
  method LastStep(hs: Hs, e: Env) returns (w: Wait)
    requires ClientValid(hs) && hs.offset == 0 && hs.clientState == FinishClientHandshake
    modifies hs
    ensures w != Error ==> After(hs, w, Rank(old(hs.clientState), old(hs.session)))
    ensures hs.tls13 == old(hs.tls13) && hs.wait == old(hs.wait) && hs.channel == old(hs.channel)
    ensures Ordinary(w, old(ViewOf(hs)), e)
    ensures w == Error && Obliging(e) ==> StandsAt(hs, old(ViewOf(hs)))
  {
    hide Settled, Move, NonePassed, Ordinary, StandsAt, Obliging, Hs.Accounted, Hs.Consistent;
    ghost var x := ViewOf(hs);
    w := DoFinishClientHandshake(hs, e);
    if w == Ok && !hs.tls13 {
      Moved(hs, w, x.side, []);
    }
    FailsOrdinary(w, x, e);
    OnlyReadsRefuse(x, e);
  }

  lemma KnowsSettled(hs: Hs)
    requires ClientValid(hs)
    ensures hs.tls13 || (Settled(SideOf(hs)) && Accounts(hs.isServer, hs.channel, hs.transcript, hs.flight, hs.inbox))
    ensures hs.tls13 || HasPassedNone(hs)
  {
  }

  /** The next step, whichever it is. */
  method ClientStep(hs: Hs, e: Env) returns (w: Wait)
    requires ClientValid(hs) && hs.offset == 0 && hs.clientState != ClientDone
    modifies hs
    ensures w != Error ==> After(hs, w, Rank(old(hs.clientState), old(hs.session)))
    ensures hs.wait == old(hs.wait)
    ensures hs.channel.wire == old(hs.channel.wire) && hs.channel.arrived == old(hs.channel.arrived)
    ensures NoVerifyRequest(old(hs.channel.arrived)) ==> hs.channel == old(hs.channel)
    ensures old(hs.tls13) ==> hs.tls13
    ensures hs.tls13 || Ordinary(w, old(ViewOf(hs)), e)
    ensures w == Error && !hs.tls13 && Obliging(e) ==> StandsAt(hs, old(ViewOf(hs))) && hs.channel == old(hs.channel)
  {
    hide ClientValid, After, ViewOf, Rank, Ordinary, StandsAt, Obliging;
    if InHellos(hs.clientState) {
      w := HelloStep(hs, e);
    } else if InVersions(hs.clientState) {
      w := VersionStep(hs, e);
    } else if InServerFlight(hs.clientState) {
      w := ServerFlightStep(hs, e);
    } else if InClientFlight(hs.clientState) {
      w := ClientFlightStep(hs, e);
    } else if InReadFinish(hs.clientState) {
      w := ReadFinishStep(hs, e);
    } else if InSendFinish(hs.clientState) {
      w := SendFinishStep(hs, e);
    } else {
      w := LastStep(hs, e);
    }
  }

  /** ssl_client_handshake: runs steps until one waits, fails, or all is done. */
  method ClientHandshake(hs: Hs, env: ClientState -> Env) returns (w: Wait, ghost last: View)
    requires ClientValid(hs) && hs.offset == 0
    modifies hs
    ensures w != Error ==> ClientValid(hs) && hs.offset == 0
    ensures w == Ok ==> hs.clientState == ClientDone
    ensures w != Error && w != Ok ==> Rank(hs.clientState, hs.session) <= Rank(old(hs.clientState), old(hs.session))
    ensures w == ReadMessage || w == ReadServerHello ==> hs.tls13 || hs.inbox == []
    ensures Reads(w) ==> hs.tls13 || hs.known.checkedOver.None?
    ensures w == EarlyReturn ==> hs.tls13 || Early(hs)
    ensures hs.wait == old(hs.wait)
    ensures hs.channel.wire == old(hs.channel.wire) && hs.channel.arrived == old(hs.channel.arrived)
    ensures NoVerifyRequest(old(hs.channel.arrived)) ==> hs.channel == old(hs.channel)
    ensures Rank(last.side.s, last.side.resumed) <= Rank(old(hs.clientState), old(hs.session))
    ensures hs.tls13 || w == Ok || (Settled(last.side) && Ordinary(w, last, env(last.side.s)))
    ensures w == Error && !hs.tls13 && Obliging(env(last.side.s)) ==>
              && StandsAt(hs, last) && Accounts(hs.isServer, hs.channel, last.side.t, last.flight, last.inbox)
              && NonePassed(last.side, last.dtls, hs.channel.receivedBefore > 0, last.status, last.inbox)
  {
    hide ClientValid, Early, Settled, Ordinary, StandsAt, Obliging, Accounts, NonePassed;
    last := ViewOf(hs);
    while hs.clientState != ClientDone
      invariant ClientValid(hs) && hs.offset == 0 && hs.wait == old(hs.wait)
      invariant hs.channel.wire == old(hs.channel.wire) && hs.channel.arrived == old(hs.channel.arrived)
      invariant NoVerifyRequest(old(hs.channel.arrived)) ==> hs.channel == old(hs.channel)
      invariant Rank(hs.clientState, hs.session) <= Rank(old(hs.clientState), old(hs.session))
      invariant Rank(last.side.s, last.side.resumed) <= Rank(old(hs.clientState), old(hs.session))
      decreases Rank(hs.clientState, hs.session)
    {
      last := ViewOf(hs);
      KnowsSettled(hs);
      w := ClientStep(hs, env(hs.clientState));
      if w != Ok {
        return;
      }
    }
    w := Ok;
  }

  /** Over whole runs no message of an optional kind is passed over: whatever
      is to be read next, its kind is not that of a place the client has left
      empty since the last message it took. */
  lemma NothingPassedOver(hs: Hs, n: nat)
    requires ClientValid(hs) && !hs.tls13 && !hs.session && hs.inbox != [] && hs.known.cipher.Some?
    requires n <= Progress(hs.clientState, false) < HELLO_DONE && forall k :: k in hs.known.filled ==> k < n
    requires n == STATUS ==> hs.certificateStatusExpected
    requires n == CERTIFICATE_REQUEST ==> hs.known.cipher.value.CertAuth()
    ensures Optional(false, n) && n != SERVER_CERTIFICATE ==> hs.inbox[0].kind != KindAt(false, n)
  {
  }

  /** What a finished handshake amounts to. */
  lemma DoneMeans(hs: Hs)
    requires ClientValid(hs) && hs.clientState == ClientDone && !hs.tls13
    ensures hs.known.cipher.Some? && PeerChecked(hs.known.checkedOver, hs.transcript)
    ensures
      var last := if hs.session then R_CLIENT_FINISHED else SERVER_FINISHED;
      Kinds(hs.transcript) == Upto(hs.session, last, hs.known.filled)
    ensures !hs.session && hs.known.cipher.value.CertAuth() ==>
              && SERVER_CERTIFICATE in hs.known.filled && hs.known.certsVerified
              && (hs.known.cipher.value.mkey == KEcdhe ==> hs.known.keyExchangeSigned)
    ensures !hs.session ==> hs.known.masterOver.Some? && hs.known.masterOver == KeyExchangePrefix(hs.transcript)
    ensures if hs.session then
              && (R_NEXT_PROTO in hs.known.filled <==> hs.known.nextProtoSeen)
              && (R_CHANNEL_ID in hs.known.filled <==> hs.known.channelIdValid)
            else
              && (CLIENT_CERTIFICATE in hs.known.filled <==> hs.known.certRequest)
              && (NEXT_PROTO in hs.known.filled <==> hs.known.nextProtoSeen)
              && (CHANNEL_ID in hs.known.filled <==> hs.known.channelIdValid)
  {
  }

  /** A new connection. */
  lemma FreshIsValid(hs: Hs)
    requires !hs.isServer && !hs.tls13 && hs.Consistent() && hs.clientState == StartConnect
    requires hs.transcript == [] && hs.known == NOTHING_KNOWN
    ensures ClientValid(hs)
  {
    assert Upto(hs.session, 0, {}) == [];
  }
}
