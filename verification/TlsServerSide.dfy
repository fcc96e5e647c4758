/** What the server knows in each state, and how that moves with each message
    taken or sent (handshake_server.cc). */
module TlsServerSide {
  import opened Prelude
  import opened TlsTranscript
  import opened TlsScript
  import opened TlsCore

  // ----- what each state means -----

  /** How many places of the script are behind. */
  function Progress(s: ServerState, resumed: bool): nat {
    match s
    case StartAccept => 0
    case ReadClientHello => 0
    case SelectCertificate => 0
    case ServerTls13 => 0
    case SelectParameters => 0
    case SendServerHello => 1
    case SendServerCertificate => 2
    case SendServerKeyExchange => 4
    case SendServerHelloDone => 5
    case ReadClientCertificate => 7
    case VerifyClientCertificate => 8
    case ReadClientKeyExchange => 8
    case ReadClientCertificateVerify => 9
    case ReadChangeCipherSpecState => if resumed then 4 else 10
    case ServerProcessChangeCipherSpec => if resumed then 4 else 10
    case ReadNextProto => if resumed then 4 else 10
    case ReadChannelId => if resumed then 5 else 11
    case ReadClientFinished => if resumed then 6 else 12
    case SendServerFinished => if resumed then 2 else 13
    case FinishServerHandshake => if resumed then 7 else 15
    case ServerDone => if resumed then 7 else 15
  }

  /** Whose turn it is. */
  predicate ServerNext(s: ServerState, resumed: bool) {
    match s
    case SendServerHello => true
    case SendServerCertificate => true
    case SendServerKeyExchange => true
    case SendServerHelloDone => true
    case SendServerFinished => true
    case FinishServerHandshake => resumed
    case ServerDone => resumed
    case _ => false
  }

  /** Falls with every step: the static graph has a cycle between
      send_server_finished and read_client_finished, no run has. */
  function Rank(s: ServerState, resumed: bool): nat {
    match s
    case StartAccept => 20
    case ReadClientHello => 19
    case SelectCertificate => 18
    case ServerTls13 => 17
    case SelectParameters => 16
    case SendServerHello => 15
    case SendServerCertificate => 14
    case SendServerKeyExchange => 13
    case SendServerHelloDone => 12
    case ReadClientCertificate => 11
    case VerifyClientCertificate => 10
    case ReadClientKeyExchange => 9
    case ReadClientCertificateVerify => 8
    case ReadChangeCipherSpecState => if resumed then 6 else 7
    case ServerProcessChangeCipherSpec => if resumed then 5 else 6
    case ReadNextProto => if resumed then 4 else 5
    case ReadChannelId => if resumed then 3 else 4
    case ReadClientFinished => if resumed then 2 else 3
    case SendServerFinished => if resumed then 7 else 2
    case FinishServerHandshake => 1
    case ServerDone => 0
  }

  /** The states only full handshakes pass. */
  predicate FullOnly(s: ServerState) {
    || s == SendServerCertificate || s == SendServerKeyExchange || s == SendServerHelloDone
    || s == ReadClientCertificate || s == VerifyClientCertificate || s == ReadClientKeyExchange
    || s == ReadClientCertificateVerify
  }

  function FirstPlace(resumed: bool): nat { if resumed then R_NEXT_PROTO else NEXT_PROTO }

  /** A ServerKeyExchange is sent with ECDHE, or with an identity hint. */
  predicate MaySendKeyExchange(c: Suite) {
    c.RequiresServerKeyExchange() || c.auth == APsk
  }

  /** What a full handshake has established by this state. */
  predicate Established(s: ServerState, f: Known) {
    var p := Progress(s, false);
    && (p >= 1 || s == SelectParameters ==> f.cipher.Some?)
    && (p >= 4 ==> (SERVER_CERTIFICATE in f.filled <==> f.cipher.value.CertAuth()))
    && (p >= 4 && STATUS in f.filled ==> SERVER_CERTIFICATE in f.filled)
    && (s == SendServerKeyExchange && f.cipher.value.RequiresServerKeyExchange() ==> f.serverParams)
    && (s == SendServerKeyExchange && f.serverParams ==> MaySendKeyExchange(f.cipher.value))
    && (p >= 5 && f.cipher.value.RequiresServerKeyExchange() ==> SERVER_KEY_EXCHANGE in f.filled)
    && (p >= 5 && SERVER_KEY_EXCHANGE in f.filled ==> MaySendKeyExchange(f.cipher.value))
    && (p == 0 ==> !f.certRequest)
    && (p >= 1 && f.certRequest ==> f.cipher.value.CertAuth())
    && (p >= 7 ==> (CERTIFICATE_REQUEST in f.filled <==> f.certRequest))
    && (p >= 8 ==> (CLIENT_CERTIFICATE in f.filled <==> f.certRequest))
    && (f.peerCerts > 0 ==> p >= 8 && f.certRequest)
    && (f.peerCerts > 0 && s != VerifyClientCertificate ==> f.certsVerified)
    && (p >= 9 <==> f.masterOver.Some?)
    && (p >= 10 ==> (VERIFY in f.filled <==> f.peerCerts > 0))
    && (p >= 11 ==> (NEXT_PROTO in f.filled <==> f.nextProtoSeen))
    && (p >= 12 ==> (CHANNEL_ID in f.filled <==> f.channelIdValid))
  }

  predicate Resuming(s: ServerState, f: Known) {
    var p := Progress(s, true);
    && p > 0 && !FullOnly(s) && f.masterOver.None? && !f.certRequest && f.peerCerts == 0
    && f.cipher.Some?
    && (p >= 5 ==> (R_NEXT_PROTO in f.filled <==> f.nextProtoSeen))
    && (p >= 6 ==> (R_CHANNEL_ID in f.filled <==> f.channelIdValid))
  }

  /** The client's Finished is part of the transcript and was checked. */
  predicate PeerChecked(over: Option<seq<Message>>, transcript: seq<Message>) {
    over.Some? && over.value + [FinishedOf(false, over.value)] <= transcript
  }

  /** The client's CertificateVerify is, too, and signs all before it. */
  predicate SignatureChecked(over: Option<seq<Message>>, transcript: seq<Message>) {
    over.Some? && over.value + [Message(CertificateVerify, Signed(over.value))] <= transcript
  }

  function ClientFinishedPlace(resumed: bool): nat {
    if resumed then R_CLIENT_FINISHED else CLIENT_FINISHED
  }

  /** The server's part of SSL_HANDSHAKE, as a value. */
  datatype Side = Side(s: ServerState, resumed: bool, f: Known, t: seq<Message>)

  predicate Settled(v: Side) {
    var p := Progress(v.s, v.resumed);
    && v.s != ServerTls13
    && Kinds(v.t) == Upto(v.resumed, p, v.f.filled)
    && (forall n :: n in v.f.filled ==> n <= p && Optional(v.resumed, n))
    && ServersTurn(v.t) == ServerNext(v.s, v.resumed)
    && v.f.masterOver == KeyExchangePrefix(v.t)
    && (if v.resumed then Resuming(v.s, v.f) else Established(v.s, v.f))
    && (if p >= ClientFinishedPlace(v.resumed) then PeerChecked(v.f.checkedOver, v.t) else v.f.checkedOver.None?)
    && (p >= VERIFY && v.f.peerCerts > 0 ==> SignatureChecked(v.f.signatureOver, v.t))
  }

  /** From v, the step to w keeps what is known and gets closer to the end. */
  predicate Leads(v: Side, w: Side) {
    Settled(w) && Rank(w.s, w.resumed) < Rank(v.s, v.resumed)
  }

  // ----- what a state tells -----

  /** The states in which a record may be read. */
  predicate MayRead(s: ServerState) {
    s != SendServerFinished && s != FinishServerHandshake && s != ServerDone
  }

  /** In all of them the client's Finished is still to come. */
  lemma FinishedToCome(v: Side)
    requires Settled(v) && MayRead(v.s)
    ensures v.f.checkedOver.None?
  {
  }

  lemma Full(v: Side)
    requires Settled(v) && FullOnly(v.s)
    ensures !v.resumed && v.f.cipher.Some?
  {
  }

  lemma NeverTls13(v: Side)
    requires Settled(v)
    ensures v.s != ServerTls13
  {
  }

  /** Before the ClientHello is hashed. */
  lemma AtStart(v: Side)
    requires Settled(v) && Progress(v.s, v.resumed) == 0
    ensures v.f.filled == {} && v.t == [] && !v.resumed && !v.f.certRequest && v.f.peerCerts == 0
    ensures v.f.masterOver.None?
  {
    assert v.t != [] ==> |Kinds(v.t)| > 0;
  }

  // ----- how it moves -----

  /** Nothing is hashed before the parameters are selected. */
  lemma Preparing(v: Side, s: ServerState, f: Known)
    requires Settled(v) && (v.s == StartAccept || v.s == ReadClientHello || v.s == SelectCertificate)
    requires s == (if v.s == StartAccept then ReadClientHello
                   else if v.s == ReadClientHello then SelectCertificate
                   else SelectParameters)
    requires s == SelectParameters ==> f.cipher.Some?
    requires f == v.f.(cipher := f.cipher, nextProtoSeen := f.nextProtoSeen, channelIdValid := f.channelIdValid)
    ensures Leads(v, v.(s := s, f := f))
  {
    hide Upto, Kinds, ServersTurn, KeyExchangePrefix;
  }

  lemma FirstMessage(m: Message, resumed: bool)
    requires m.kind == ClientHello
    ensures Kinds([m]) == Upto(resumed, 1, {}) && ServersTurn([m]) && KeyExchangePrefix([m]) == None
  {
    hide KindAt, Optional;
    assert [] + [m] == [m];
    TurnAppend([], m);
    KeyExchangeAppend([], m);
    KindsAppend([], m);
    HelloIsFirst(resumed);
  }

  lemma HelloIsFirst(resumed: bool)
    ensures Upto(resumed, 1, {}) == [ClientHello]
  {
    assert Upto(resumed, 0, {}) == [];
  }

  lemma ClientHelloTaken(v: Side, resumed: bool, f: Known, m: Message)
    requires Settled(v) && v.s == SelectParameters && m.kind == ClientHello
    requires f == v.f.(certRequest := f.certRequest)
    requires f.certRequest ==> !resumed && f.cipher.Some? && f.cipher.value.CertAuth()
    ensures Leads(v, Side(SendServerHello, resumed, f, [m]))
  {
    AtStart(v);
    hide Kinds, Upto, ServersTurn, KeyExchangePrefix;
    FirstMessage(m, resumed);
  }

  lemma ServerHelloSent(v: Side, f: Known, m: Message)
    requires Settled(v) && v.s == SendServerHello && m.kind == ServerHello
    requires f == v.f.(channelIdValid := f.channelIdValid)
    ensures Leads(v, Side(if v.resumed then SendServerFinished else SendServerCertificate, v.resumed, f, v.t + [m]))
  {
    hide Upto, Kinds, ServersTurn, KeyExchangePrefix;
    Fill(v.resumed, SERVER_HELLO, v.f.filled, v.t, m);
    TurnAppend(v.t, m);
    KeyExchangeAppend(v.t, m);
  }

  /** The certificate places, filled or not. */
  lemma CertificatesEstablish(v: Side, params: bool, filled: set<nat>)
    requires Settled(v) && v.s == SendServerCertificate && v.f.cipher.Some?
    requires v.f.cipher.value.RequiresServerKeyExchange() ==> params
    requires params ==> MaySendKeyExchange(v.f.cipher.value)
    requires if v.f.cipher.value.CertAuth() then
               filled == v.f.filled + {SERVER_CERTIFICATE} || filled == v.f.filled + {SERVER_CERTIFICATE} + {STATUS}
             else filled == v.f.filled
    ensures !v.resumed && Established(SendServerKeyExchange, v.f.(filled := filled, serverParams := params))
    ensures forall n :: n in filled ==> n <= STATUS && Optional(false, n)
    ensures SERVER_CERTIFICATE !in v.f.filled && STATUS !in v.f.filled
  {
    hide Upto, Kinds, ServersTurn, KeyExchangePrefix;
  }

  lemma CertificateSent(v: Side, params: bool, m: Message)
    requires Settled(v) && v.s == SendServerCertificate && m.kind == Certificate
    requires v.f.cipher.Some? && v.f.cipher.value.CertAuth()
    requires v.f.cipher.value.RequiresServerKeyExchange() ==> params
    requires params ==> MaySendKeyExchange(v.f.cipher.value)
    ensures
      var f := v.f.(filled := v.f.filled + {SERVER_CERTIFICATE}, serverParams := params);
      Leads(v, v.(s := SendServerKeyExchange, f := f, t := v.t + [m]))
  {
    hide Upto, Kinds, ServersTurn, KeyExchangePrefix, Established, Resuming;
    CertificatesEstablish(v, params, v.f.filled + {SERVER_CERTIFICATE});
    Fill(false, SERVER_CERTIFICATE, v.f.filled, v.t, m);
    Skip(false, STATUS, v.f.filled + {SERVER_CERTIFICATE});
    TurnAppend(v.t, m);
    KeyExchangeAppend(v.t, m);
  }

  lemma CertificatePlaced(v: Side, m: Message)
    requires Settled(v) && v.s == SendServerCertificate && m.kind == Certificate
    ensures !v.resumed && Kinds(v.t + [m]) == Upto(false, SERVER_CERTIFICATE, v.f.filled + {SERVER_CERTIFICATE})
    ensures ServersTurn(v.t + [m]) && v.f.masterOver == KeyExchangePrefix(v.t + [m])
  {
    hide Upto, Kinds, ServersTurn, KeyExchangePrefix, Established, PeerChecked, SignatureChecked;
    Fill(false, SERVER_CERTIFICATE, v.f.filled, v.t, m);
    TurnAppend(v.t, m);
    KeyExchangeAppend(v.t, m);
  }

  lemma CertificateAndStatusSent(v: Side, params: bool, m: Message, status: Message)
    requires Settled(v) && v.s == SendServerCertificate && m.kind == Certificate && status.kind == CertificateStatus
    requires v.f.cipher.Some? && v.f.cipher.value.CertAuth()
    requires v.f.cipher.value.RequiresServerKeyExchange() ==> params
    requires params ==> MaySendKeyExchange(v.f.cipher.value)
    ensures
      var f := v.f.(filled := v.f.filled + {SERVER_CERTIFICATE} + {STATUS}, serverParams := params);
      Leads(v, v.(s := SendServerKeyExchange, f := f, t := v.t + [m] + [status]))
  {
    hide Upto, Kinds, ServersTurn, KeyExchangePrefix, Established, Resuming, PeerChecked, SignatureChecked;
    var t := v.t + [m];
    CertificatesEstablish(v, params, v.f.filled + {SERVER_CERTIFICATE} + {STATUS});
    CertificatePlaced(v, m);
    Fill(false, STATUS, v.f.filled + {SERVER_CERTIFICATE}, t, status);
    TurnAppend(t, status);
    KeyExchangeAppend(t, status);
  }

  lemma CertificateNotSent(v: Side, params: bool)
    requires Settled(v) && v.s == SendServerCertificate
    requires v.f.cipher.Some? && !v.f.cipher.value.CertAuth()
    requires v.f.cipher.value.RequiresServerKeyExchange() ==> params
    requires params ==> MaySendKeyExchange(v.f.cipher.value)
    ensures Leads(v, v.(s := SendServerKeyExchange, f := v.f.(serverParams := params)))
  {
    hide Upto, Kinds, ServersTurn, KeyExchangePrefix, Established, Resuming;
    CertificatesEstablish(v, params, v.f.filled);
    Skip(false, SERVER_CERTIFICATE, v.f.filled);
    Skip(false, STATUS, v.f.filled);
  }

  lemma KeyExchangeSent(v: Side, m: Message)
    requires Settled(v) && v.s == SendServerKeyExchange && m.kind == ServerKeyExchange && v.f.serverParams
    ensures
      var f := v.f.(filled := v.f.filled + {SERVER_KEY_EXCHANGE}, serverParams := false);
      Leads(v, v.(s := SendServerHelloDone, f := f, t := v.t + [m]))
  {
    hide Upto, Kinds, ServersTurn, KeyExchangePrefix;
    Fill(false, SERVER_KEY_EXCHANGE, v.f.filled, v.t, m);
    TurnAppend(v.t, m);
    KeyExchangeAppend(v.t, m);
  }

  lemma KeyExchangeNotSent(v: Side)
    requires Settled(v) && v.s == SendServerKeyExchange && !v.f.serverParams
    ensures Leads(v, v.(s := SendServerHelloDone))
  {
    hide Upto, Kinds, ServersTurn, KeyExchangePrefix;
    Skip(false, SERVER_KEY_EXCHANGE, v.f.filled);
  }

  lemma HelloDoneSent(v: Side, done: Message)
    requires Settled(v) && v.s == SendServerHelloDone && !v.f.certRequest && done.kind == ServerHelloDone
    ensures Leads(v, v.(s := ReadClientCertificate, t := v.t + [done]))
  {
    hide Upto, Kinds, ServersTurn, KeyExchangePrefix;
    Skip(false, CERTIFICATE_REQUEST, v.f.filled);
    Fill(false, HELLO_DONE, v.f.filled, v.t, done);
    TurnAppend(v.t, done);
    KeyExchangeAppend(v.t, done);
  }

  lemma RequestAndHelloDoneSent(v: Side, m: Message, done: Message)
    requires Settled(v) && v.s == SendServerHelloDone && v.f.certRequest
    requires m.kind == CertificateRequest && done.kind == ServerHelloDone
    ensures
      var f := v.f.(filled := v.f.filled + {CERTIFICATE_REQUEST});
      Leads(v, v.(s := ReadClientCertificate, f := f, t := v.t + [m] + [done]))
  {
    hide Upto, Kinds, ServersTurn, KeyExchangePrefix;
    Fill(false, CERTIFICATE_REQUEST, v.f.filled, v.t, m);
    Fill(false, HELLO_DONE, v.f.filled + {CERTIFICATE_REQUEST}, v.t + [m], done);
    TurnAppend(v.t, m);
    KeyExchangeAppend(v.t, m);
    TurnAppend(v.t + [m], done);
    KeyExchangeAppend(v.t + [m], done);
  }

  lemma ClientCertificateTaken(v: Side, m: Message, certs: nat)
    requires Settled(v) && v.s == ReadClientCertificate && v.f.certRequest && m.kind == Certificate
    ensures
      var f := v.f.(filled := v.f.filled + {CLIENT_CERTIFICATE}, peerCerts := certs);
      Leads(v, v.(s := VerifyClientCertificate, f := f, t := v.t + [m]))
  {
    hide Upto, Kinds, ServersTurn, KeyExchangePrefix;
    Fill(false, CLIENT_CERTIFICATE, v.f.filled, v.t, m);
    TurnAppend(v.t, m);
    KeyExchangeAppend(v.t, m);
  }

  lemma ClientCertificateSkipped(v: Side)
    requires Settled(v) && v.s == ReadClientCertificate && !v.f.certRequest
    ensures Leads(v, v.(s := VerifyClientCertificate))
  {
    hide Upto, Kinds, ServersTurn, KeyExchangePrefix;
    Skip(false, CLIENT_CERTIFICATE, v.f.filled);
  }

  lemma CertificateVerified(v: Side, verified: bool)
    requires Settled(v) && v.s == VerifyClientCertificate && (v.f.peerCerts > 0 ==> verified)
    ensures Leads(v, v.(s := ReadClientKeyExchange, f := v.f.(certsVerified := verified)))
  {
    hide Upto, Kinds, ServersTurn, KeyExchangePrefix;
  }

  lemma ClientKeyExchangeTaken(v: Side, m: Message)
    requires Settled(v) && v.s == ReadClientKeyExchange && m.kind == ClientKeyExchange
    ensures Leads(v, v.(s := ReadClientCertificateVerify, f := v.f.(masterOver := Some(v.t + [m])), t := v.t + [m]))
  {
    hide Upto, Kinds, ServersTurn, KeyExchangePrefix;
    Fill(false, CLIENT_KEY_EXCHANGE, v.f.filled, v.t, m);
    TurnAppend(v.t, m);
    KeyExchangeAppend(v.t, m);
  }

  lemma VerifyTaken(v: Side, m: Message)
    requires Settled(v) && v.s == ReadClientCertificateVerify && v.f.peerCerts > 0
    requires m == Message(CertificateVerify, Signed(v.t))
    ensures
      var f := v.f.(filled := v.f.filled + {VERIFY}, signatureOver := Some(v.t));
      Leads(v, v.(s := ReadChangeCipherSpecState, f := f, t := v.t + [m]))
  {
    hide Upto, Kinds, ServersTurn, KeyExchangePrefix;
    Full(v);
    Fill(false, VERIFY, v.f.filled, v.t, m);
    TurnAppend(v.t, m);
    KeyExchangeAppend(v.t, m);
  }

  lemma VerifySkipped(v: Side)
    requires Settled(v) && v.s == ReadClientCertificateVerify && v.f.peerCerts == 0
    ensures Leads(v, v.(s := ReadChangeCipherSpecState))
  {
    hide Upto, Kinds, ServersTurn, KeyExchangePrefix;
    Skip(false, VERIFY, v.f.filled);
  }

  lemma ChangeProcessed(v: Side)
    requires Settled(v) && (v.s == ReadChangeCipherSpecState || v.s == ServerProcessChangeCipherSpec)
    ensures Leads(v, v.(s := if v.s == ReadChangeCipherSpecState then ServerProcessChangeCipherSpec else ReadNextProto))
  {
    hide Upto, Kinds, ServersTurn, KeyExchangePrefix;
  }

  /** NextProtocol and Channel ID, each as negotiated. */
  lemma OptionalEstablishes(v: Side, filled: set<nat>)
    requires Settled(v) && (v.s == ReadNextProto || v.s == ReadChannelId)
    requires filled == v.f.filled + (if Wanted(v) then {OptionalPlace(v)} else {})
    ensures if v.resumed then Resuming(AfterOptional(v.s), v.f.(filled := filled))
            else Established(AfterOptional(v.s), v.f.(filled := filled))
    ensures Progress(AfterOptional(v.s), v.resumed) == OptionalPlace(v)
    ensures Progress(v.s, v.resumed) == OptionalPlace(v) - 1 && Optional(v.resumed, OptionalPlace(v))
    ensures KindAt(v.resumed, OptionalPlace(v)) == OptionalKind(v.s)
  {
    hide Upto, Kinds, ServersTurn, KeyExchangePrefix;
  }

  function AfterOptional(s: ServerState): ServerState {
    if s == ReadNextProto then ReadChannelId else ReadClientFinished
  }

  function OptionalPlace(v: Side): nat {
    if v.s == ReadNextProto then FirstPlace(v.resumed) else FirstPlace(v.resumed) + 1
  }

  function OptionalKind(s: ServerState): Kind {
    if s == ReadNextProto then NextProto else ChannelId
  }

  predicate Wanted(v: Side) {
    if v.s == ReadNextProto then v.f.nextProtoSeen else v.f.channelIdValid
  }

  lemma OptionalTaken(v: Side, m: Message)
    requires Settled(v) && (v.s == ReadNextProto || v.s == ReadChannelId)
    requires Wanted(v) && m.kind == OptionalKind(v.s)
    ensures
      var f := v.f.(filled := v.f.filled + {OptionalPlace(v)});
      Leads(v, v.(s := AfterOptional(v.s), f := f, t := v.t + [m]))
  {
    hide Upto, Kinds, ServersTurn, KeyExchangePrefix, Established, Resuming, KindAt;
    OptionalEstablishes(v, v.f.filled + {OptionalPlace(v)});
    Fill(v.resumed, OptionalPlace(v), v.f.filled, v.t, m);
    TurnAppend(v.t, m);
    KeyExchangeAppend(v.t, m);
  }

  lemma OptionalSkipped(v: Side)
    requires Settled(v) && (v.s == ReadNextProto || v.s == ReadChannelId) && !Wanted(v)
    ensures Leads(v, v.(s := AfterOptional(v.s)))
  {
    hide Upto, Kinds, ServersTurn, KeyExchangePrefix, Established, Resuming, KindAt;
    assert v.f.filled + {} == v.f.filled;
    OptionalEstablishes(v, v.f.filled);
    Skip(v.resumed, OptionalPlace(v), v.f.filled);
  }

  lemma JustChecked(t: seq<Message>)
    ensures PeerChecked(Some(t), t + [FinishedOf(false, t)])
    ensures !Optional(false, CLIENT_FINISHED) && KindAt(false, CLIENT_FINISHED) == Finished
    ensures !Optional(true, R_CLIENT_FINISHED) && KindAt(true, R_CLIENT_FINISHED) == Finished
    ensures !Optional(false, SERVER_FINISHED) && KindAt(false, SERVER_FINISHED) == Finished
    ensures !Optional(true, R_SERVER_FINISHED) && KindAt(true, R_SERVER_FINISHED) == Finished
  {
  }

  function AfterClientFinished(resumed: bool): ServerState {
    if resumed then FinishServerHandshake else SendServerFinished
  }

  lemma ClientFinishedEstablishes(v: Side)
    requires Settled(v) && v.s == ReadClientFinished
    ensures
      var f := v.f.(checkedOver := Some(v.t));
      if v.resumed then Resuming(AfterClientFinished(true), f) else Established(AfterClientFinished(false), f)
  {
    hide Upto, Kinds, ServersTurn, KeyExchangePrefix;
  }

  lemma ClientFinishedTaken(v: Side)
    requires Settled(v) && v.s == ReadClientFinished
    ensures Leads(v, v.(s := AfterClientFinished(v.resumed), f := v.f.(checkedOver := Some(v.t)),
                        t := v.t + [FinishedOf(false, v.t)]))
  {
    hide Upto, Kinds, ServersTurn, KeyExchangePrefix, Established, Resuming, PeerChecked, KindAt;
    JustChecked(v.t);
    ClientFinishedEstablishes(v);
    TurnAppend(v.t, FinishedOf(false, v.t));
    KeyExchangeAppend(v.t, FinishedOf(false, v.t));
    Fill(v.resumed, if v.resumed then R_CLIENT_FINISHED else CLIENT_FINISHED, v.f.filled, v.t, FinishedOf(false, v.t));
  }

  lemma ChecksStay(f: Known, t: seq<Message>, m: Message)
    ensures PeerChecked(f.checkedOver, t) ==> PeerChecked(f.checkedOver, t + [m])
    ensures SignatureChecked(f.signatureOver, t) ==> SignatureChecked(f.signatureOver, t + [m])
  {
  }

  function TicketPlace(resumed: bool): nat { if resumed then R_TICKET else TICKET }

  function AfterServerFinished(resumed: bool): ServerState {
    if resumed then ReadChangeCipherSpecState else FinishServerHandshake
  }

  lemma ServerFinishedEstablishes(v: Side, filled: set<nat>)
    requires Settled(v) && v.s == SendServerFinished
    requires filled == v.f.filled || filled == v.f.filled + {TicketPlace(v.resumed)}
    ensures if v.resumed then Resuming(AfterServerFinished(true), v.f.(filled := filled))
            else Established(AfterServerFinished(false), v.f.(filled := filled))
    ensures TicketPlace(v.resumed) !in v.f.filled && Optional(v.resumed, TicketPlace(v.resumed))
  {
    hide Upto, Kinds, ServersTurn, KeyExchangePrefix;
  }

  lemma ServerFinishedSent(v: Side)
    requires Settled(v) && v.s == SendServerFinished
    ensures Leads(v, v.(s := AfterServerFinished(v.resumed), t := v.t + [FinishedOf(true, v.t)]))
  {
    hide Upto, Kinds, ServersTurn, KeyExchangePrefix, Established, Resuming, KindAt, PeerChecked, SignatureChecked;
    JustChecked(v.t);
    ChecksStay(v.f, v.t, FinishedOf(true, v.t));
    ServerFinishedEstablishes(v, v.f.filled);
    Skip(v.resumed, TicketPlace(v.resumed), v.f.filled);
    TurnAppend(v.t, FinishedOf(true, v.t));
    KeyExchangeAppend(v.t, FinishedOf(true, v.t));
    Fill(v.resumed, TicketPlace(v.resumed) + 1, v.f.filled, v.t, FinishedOf(true, v.t));
  }

  lemma TicketSent(v: Side, m: Message)
    requires Settled(v) && v.s == SendServerFinished && m.kind == NewSessionTicket
    ensures Kinds(v.t + [m]) == Upto(v.resumed, TicketPlace(v.resumed), v.f.filled + {TicketPlace(v.resumed)})
    ensures ServersTurn(v.t + [m]) && v.f.masterOver == KeyExchangePrefix(v.t + [m])
  {
    hide Upto, Kinds, ServersTurn, KeyExchangePrefix, Established, Resuming, PeerChecked, SignatureChecked;
    TurnAppend(v.t, m);
    KeyExchangeAppend(v.t, m);
    Fill(v.resumed, TicketPlace(v.resumed), v.f.filled, v.t, m);
  }

  lemma TicketAndFinishedSent(v: Side, m: Message)
    requires Settled(v) && v.s == SendServerFinished && m.kind == NewSessionTicket
    ensures
      var t := v.t + [m];
      var f := v.f.(filled := v.f.filled + {TicketPlace(v.resumed)});
      Leads(v, v.(s := AfterServerFinished(v.resumed), f := f, t := t + [FinishedOf(true, t)]))
  {
    hide Upto, Kinds, ServersTurn, KeyExchangePrefix, Established, Resuming, PeerChecked, SignatureChecked, KindAt;
    var t, filled := v.t + [m], v.f.filled + {TicketPlace(v.resumed)};
    TicketSent(v, m);
    ServerFinishedEstablishes(v, filled);
    ChecksStay(v.f, v.t, m);
    ChecksStay(v.f, t, FinishedOf(true, t));
    JustChecked(t);
    TurnAppend(t, FinishedOf(true, t));
    KeyExchangeAppend(t, FinishedOf(true, t));
    Fill(v.resumed, TicketPlace(v.resumed) + 1, filled, t, FinishedOf(true, t));
  }

  lemma Completed(v: Side)
    requires Settled(v) && v.s == FinishServerHandshake
    ensures Leads(v, v.(s := ServerDone))
  {
    hide Upto, Kinds, ServersTurn, KeyExchangePrefix;
  }

  // ----- the machine as a relation -----

  predicate Sends(ms: seq<Message>, kind: Kind) {
    |ms| == 1 && ms[0].kind == kind
  }

  predicate CertAuth(v: Side) {
    v.f.cipher.Some? && v.f.cipher.value.CertAuth()
  }

  predicate RequiresKeyExchange(v: Side) {
    v.f.cipher.Some? && v.f.cipher.value.RequiresServerKeyExchange()
  }

  function Filled(v: Side, s: ServerState, n: nat, ms: seq<Message>): Side {
    v.(s := s, f := v.f.(filled := v.f.filled + {n}), t := v.t + ms)
  }

  /** The step from v to w, passing the messages ms (taken or sent). */
  predicate Move(v: Side, w: Side, ms: seq<Message>) {
    match v.s
    case StartAccept => ms == [] && w == v.(s := ReadClientHello)
    case ReadClientHello =>
      && ms == []
      && w == v.(s := SelectCertificate,
                 f := v.f.(nextProtoSeen := w.f.nextProtoSeen, channelIdValid := w.f.channelIdValid))
    case SelectCertificate =>
      ms == [] && w.f.cipher.Some? && w == v.(s := SelectParameters, f := v.f.(cipher := w.f.cipher))
    case SelectParameters =>
      && Sends(ms, ClientHello)
      && (w.f.certRequest ==> !w.resumed && CertAuth(v))
      && w == Side(SendServerHello, w.resumed, v.f.(certRequest := w.f.certRequest), ms)
    case SendServerHello =>
      && Sends(ms, ServerHello) && (w.f.channelIdValid ==> v.f.channelIdValid)
      && w == Side(if v.resumed then SendServerFinished else SendServerCertificate, v.resumed,
                   v.f.(channelIdValid := w.f.channelIdValid), v.t + ms)
    case SendServerCertificate =>
      && (RequiresKeyExchange(v) ==> w.f.serverParams)
      && (w.f.serverParams ==> RequiresKeyExchange(v) || (v.f.cipher.Some? && v.f.cipher.value.auth == APsk))
      && CertificateMove(v, w.(s := v.s, f := w.f.(serverParams := v.f.serverParams)), ms)
      && w.s == SendServerKeyExchange && w.resumed == v.resumed
    case SendServerKeyExchange =>
      if v.f.serverParams then
        && Sends(ms, ServerKeyExchange)
        && w == Filled(v.(f := v.f.(serverParams := false)), SendServerHelloDone, SERVER_KEY_EXCHANGE, ms)
      else ms == [] && w == v.(s := SendServerHelloDone)
    case SendServerHelloDone =>
      if v.f.certRequest then
        && |ms| == 2 && ms[0].kind == CertificateRequest && ms[1] == Message(ServerHelloDone, Plain([]))
        && w == Filled(v, ReadClientCertificate, CERTIFICATE_REQUEST, ms)
      else ms == [Message(ServerHelloDone, Plain([]))] && w == v.(s := ReadClientCertificate, t := v.t + ms)
    case ReadClientCertificate =>
      if v.f.certRequest then
        && Sends(ms, Certificate)
        && w == Filled(v.(f := v.f.(peerCerts := w.f.peerCerts)), VerifyClientCertificate, CLIENT_CERTIFICATE, ms)
      else ms == [] && w == v.(s := VerifyClientCertificate)
    case VerifyClientCertificate =>
      && ms == []
      && w == v.(s := ReadClientKeyExchange, f := v.f.(certsVerified := v.f.certsVerified || v.f.peerCerts > 0))
    case ReadClientKeyExchange =>
      && Sends(ms, ClientKeyExchange)
      && w == v.(s := ReadClientCertificateVerify, f := v.f.(masterOver := Some(v.t + ms)), t := v.t + ms)
    case ReadClientCertificateVerify =>
      if v.f.peerCerts > 0 then
        && ms == [Message(CertificateVerify, Signed(v.t))]
        && w == Filled(v.(f := v.f.(signatureOver := Some(v.t))), ReadChangeCipherSpecState, VERIFY, ms)
      else ms == [] && w == v.(s := ReadChangeCipherSpecState)
    case ReadChangeCipherSpecState => ms == [] && w == v.(s := ServerProcessChangeCipherSpec)
    case ServerProcessChangeCipherSpec => ms == [] && w == v.(s := ReadNextProto)
    case ReadNextProto =>
      if v.f.nextProtoSeen then Sends(ms, NextProto) && w == Filled(v, ReadChannelId, FirstPlace(v.resumed), ms)
      else ms == [] && w == v.(s := ReadChannelId)
    case ReadChannelId =>
      if v.f.channelIdValid then
        Sends(ms, ChannelId) && w == Filled(v, ReadClientFinished, FirstPlace(v.resumed) + 1, ms)
      else ms == [] && w == v.(s := ReadClientFinished)
    case ReadClientFinished =>
      && ms == [FinishedOf(false, v.t)]
      && w == v.(s := AfterClientFinished(v.resumed), f := v.f.(checkedOver := Some(v.t)), t := v.t + ms)
    case SendServerFinished =>
      if |ms| == 1 then
        ms == [FinishedOf(true, v.t)] && w == v.(s := AfterServerFinished(v.resumed), t := v.t + ms)
      else
        && |ms| == 2 && ms[0].kind == NewSessionTicket && ms[1] == FinishedOf(true, v.t + [ms[0]])
        && w == Filled(v, AfterServerFinished(v.resumed), TicketPlace(v.resumed), ms)
    case FinishServerHandshake => ms == [] && w == v.(s := ServerDone)
    case ServerTls13 => false
    case ServerDone => false
  }

  /** The certificate and perhaps its status, if the cipher has certificates. */
  predicate CertificateMove(v: Side, w: Side, ms: seq<Message>) {
    if !CertAuth(v) then ms == [] && w == v
    else if |ms| == 1 then Sends(ms, Certificate) && w == Filled(v, v.s, SERVER_CERTIFICATE, ms)
    else
      && |ms| == 2 && ms[0].kind == Certificate && ms[1].kind == CertificateStatus
      && w == v.(t := v.t + ms, f := v.f.(filled := v.f.filled + {SERVER_CERTIFICATE} + {STATUS}))
  }

  lemma RequestThenDone(v: Side, u: Side, ms: seq<Message>)
    requires v.s == SendServerHelloDone
    requires if v.f.certRequest then Sends(ms, CertificateRequest) else ms == []
    requires u == v.(t := v.t + ms,
                     f := v.f.(filled := v.f.filled + (if v.f.certRequest then {CERTIFICATE_REQUEST} else {})))
    ensures
      var done := Message(ServerHelloDone, Plain([]));
      Move(v, u.(s := ReadClientCertificate, t := u.t + [done]), ms + [done])
  {
    var done := Message(ServerHelloDone, Plain([]));
    assert v.t + ms + [done] == v.t + (ms + [done]);
    if !v.f.certRequest {
      assert v.f.filled + {} == v.f.filled;
    }
  }

  lemma CertificateThenParams(v: Side, u: Side, params: bool, ms: seq<Message>)
    requires v.s == SendServerCertificate && CertificateMove(v, u, ms)
    requires RequiresKeyExchange(v) ==> params
    requires params ==> RequiresKeyExchange(v) || (v.f.cipher.Some? && v.f.cipher.value.auth == APsk)
    ensures Move(v, u.(s := SendServerKeyExchange, f := u.f.(serverParams := params)), ms)
  {
    CipherKept(v, u, ms);
    hide CertificateMove;
    var w := u.(s := SendServerKeyExchange, f := u.f.(serverParams := params));
    assert w.(s := v.s, f := w.f.(serverParams := v.f.serverParams)) == u;
  }

  lemma CertificateAlone(v: Side, cs: seq<Message>)
    requires if CertAuth(v) then Sends(cs, Certificate) else cs == []
    ensures CertificateMove(v, if CertAuth(v) then Filled(v, v.s, SERVER_CERTIFICATE, cs) else v, cs)
  {
  }

  lemma CipherKept(v: Side, u: Side, ms: seq<Message>)
    requires CertificateMove(v, u, ms)
    ensures u.f.cipher == v.f.cipher && u.f.serverParams == v.f.serverParams && u.s == v.s && u.resumed == v.resumed
  {
  }

  /** NextProtocol and Channel ID, if negotiated. */
  lemma OptionalMove(v: Side, ms: seq<Message>)
    requires v.s == ReadNextProto || v.s == ReadChannelId
    requires if Wanted(v) then Sends(ms, OptionalKind(v.s)) else ms == []
    ensures
      var w := if Wanted(v) then Filled(v, AfterOptional(v.s), OptionalPlace(v), ms) else v.(s := AfterOptional(v.s));
      Move(v, w, ms)
  {
  }

  lemma CertificateThenStatus(v: Side, cs: seq<Message>, ss: seq<Message>)
    requires CertAuth(v) && Sends(cs, Certificate) && Sends(ss, CertificateStatus)
    ensures CertificateMove(v, Filled(Filled(v, v.s, SERVER_CERTIFICATE, cs), v.s, STATUS, ss), cs + ss)
  {
    assert v.t + (cs + ss) == v.t + cs + ss;
  }

  /** The last flight: perhaps a ticket, then Finished. */
  lemma TicketThenFinished(v: Side, u: Side, ms: seq<Message>)
    requires v.s == SendServerFinished
    requires if ms == [] then u == v else Sends(ms, NewSessionTicket) && u == Filled(v, v.s, TicketPlace(v.resumed), ms)
    ensures
      var m := FinishedOf(true, u.t);
      Move(v, u.(s := AfterServerFinished(v.resumed), t := u.t + [m]), ms + [m])
  {
    var all := ms + [FinishedOf(true, u.t)];
    if ms == [] {
      assert all == [FinishedOf(true, v.t)];
    } else {
      assert v.t + [ms[0]] == u.t by { assert ms == [ms[0]]; }
      assert u.t + [FinishedOf(true, u.t)] == v.t + all;
    }
  }

  lemma Pair(t: seq<Message>, ms: seq<Message>)
    requires |ms| == 2
    ensures t + [ms[0]] + [ms[1]] == t + ms
  {
  }

  /** Every step keeps what is known and gets closer to the end. */
  lemma MoveLeads(v: Side, w: Side, ms: seq<Message>)
    requires Settled(v) && Move(v, w, ms)
    ensures Leads(v, w)
  {
    hide Settled, Leads;
    var rank := Rank(v.s, v.resumed);
    if rank >= 16 {
      HelloLeads(v, w, ms);
    } else if v.s == SendServerFinished {
      FinishedLeads(v, w, ms);
    } else if rank >= 12 {
      FirstFlightLeads(v, w, ms);
    } else if rank >= 8 {
      ClientFlightLeads(v, w, ms);
    } else {
      LastLeads(v, w, ms);
    }
  }

  lemma HelloLeads(v: Side, w: Side, ms: seq<Message>)
    requires Settled(v) && Move(v, w, ms) && Rank(v.s, v.resumed) >= 16
    ensures Leads(v, w)
  {
    hide Settled, Leads;
    if v.s == SelectParameters {
      assert ms == [ms[0]];
      ClientHelloTaken(v, w.resumed, w.f, ms[0]);
    } else {
      Preparing(v, w.s, w.f);
    }
  }

  lemma FirstFlightLeads(v: Side, w: Side, ms: seq<Message>)
    requires Settled(v) && Move(v, w, ms) && 12 <= Rank(v.s, v.resumed) <= 15
    ensures Leads(v, w)
  {
    hide Settled, Leads;
    assert |ms| == 1 ==> ms == [ms[0]];
    if v.s == SendServerHello {
      ServerHelloSent(v, w.f, ms[0]);
    } else if v.s == SendServerCertificate {
      CertificateLeads(v, w, ms);
    } else {
      Full(v);
      if v.s == SendServerKeyExchange {
        if ms == [] {
          KeyExchangeNotSent(v);
        } else {
          KeyExchangeSent(v, ms[0]);
        }
      } else if v.f.certRequest {
        Pair(v.t, ms);
        RequestAndHelloDoneSent(v, ms[0], ms[1]);
      } else {
        HelloDoneSent(v, ms[0]);
      }
    }
  }

  lemma CertificateLeads(v: Side, w: Side, ms: seq<Message>)
    requires Settled(v) && Move(v, w, ms) && v.s == SendServerCertificate
    ensures Leads(v, w)
  {
    hide Settled, Leads;
    Full(v);
    if ms == [] {
      CertificateNotSent(v, w.f.serverParams);
    } else if |ms| == 1 {
      assert ms == [ms[0]];
      CertificateSent(v, w.f.serverParams, ms[0]);
    } else {
      Pair(v.t, ms);
      CertificateAndStatusSent(v, w.f.serverParams, ms[0], ms[1]);
    }
  }

  lemma ClientFlightLeads(v: Side, w: Side, ms: seq<Message>)
    requires Settled(v) && Move(v, w, ms) && 8 <= Rank(v.s, v.resumed) <= 11
    ensures Leads(v, w)
  {
    hide Settled, Leads;
    assert |ms| == 1 ==> ms == [ms[0]];
    if v.s == ReadClientCertificate {
      if ms == [] {
        ClientCertificateSkipped(v);
      } else {
        ClientCertificateTaken(v, ms[0], w.f.peerCerts);
      }
    } else if v.s == VerifyClientCertificate {
      CertificateVerified(v, w.f.certsVerified);
    } else if v.s == ReadClientKeyExchange {
      ClientKeyExchangeTaken(v, ms[0]);
    } else if ms == [] {
      VerifySkipped(v);
    } else {
      VerifyTaken(v, ms[0]);
    }
  }

  lemma FinishedLeads(v: Side, w: Side, ms: seq<Message>)
    requires Settled(v) && Move(v, w, ms) && v.s == SendServerFinished
    ensures Leads(v, w)
  {
    hide Settled, Leads;
    if |ms| == 1 {
      ServerFinishedSent(v);
    } else {
      Pair(v.t, ms);
      TicketAndFinishedSent(v, ms[0]);
    }
  }

  lemma LastLeads(v: Side, w: Side, ms: seq<Message>)
    requires Settled(v) && Move(v, w, ms) && Rank(v.s, v.resumed) <= 7 && v.s != SendServerFinished
    ensures Leads(v, w)
  {
    hide Settled, Leads;
    assert |ms| == 1 ==> ms == [ms[0]];
    if v.s == ReadChangeCipherSpecState || v.s == ServerProcessChangeCipherSpec {
      ChangeProcessed(v);
    } else if v.s == ReadNextProto || v.s == ReadChannelId {
      if ms == [] {
        OptionalSkipped(v);
      } else {
        OptionalTaken(v, ms[0]);
      }
    } else if v.s == ReadClientFinished {
      ClientFinishedTaken(v);
    } else {
      Completed(v);
    }
  }
}
