/** What the client knows in each state, and how that moves with each message
    taken or sent (handshake_client.cc). */
module TlsClientSide {
  import opened Prelude
  import opened TlsTranscript
  import opened TlsScript
  import opened TlsCore

  // ----- what each state means -----

  /** How many places of the script are behind. */
  function Progress(s: ClientState, resumed: bool): nat {
    match s
    case StartConnect => 0
    case EnterEarlyData => 1
    case ReadHelloVerifyRequest => 1
    case ReadServerHelloState => 1
    case ClientTls13 => 1
    case ReadServerCertificate => 2
    case ReadCertificateStatus => 3
    case VerifyServerCertificate => 4
    case ReadServerKeyExchange => 4
    case ReadCertificateRequest => 5
    case ReadServerHelloDone => 6
    case SendClientCertificate => 7
    case SendClientKeyExchange => 8
    case SendClientCertificateVerify => 9
    case SendClientFinished => if resumed then 4 else 10
    case FinishFlight => if resumed then 7 else 13
    case ReadSessionTicket => if resumed then 2 else 13
    case ClientProcessChangeCipherSpec => if resumed then 3 else 14
    case ReadServerFinished => if resumed then 3 else 14
    case FinishClientHandshake => if resumed then 7 else 15
    case ClientDone => if resumed then 7 else 15
  }

  /** Whose turn it is. */
  predicate ServerNext(s: ClientState, resumed: bool) {
    match s
    case StartConnect => false
    case SendClientCertificate => false
    case SendClientKeyExchange => false
    case SendClientCertificateVerify => false
    case SendClientFinished => false
    case FinishClientHandshake => resumed
    case ClientDone => resumed
    case _ => true
  }

  /** Falls with every step: the static graph has a cycle between
      send_client_finished and read_server_finished, no run has. */
  function Rank(s: ClientState, resumed: bool): nat {
    match s
    case StartConnect => 20
    case EnterEarlyData => 19
    case ReadHelloVerifyRequest => 18
    case ReadServerHelloState => 17
    case ClientTls13 => 16
    case ReadServerCertificate => 15
    case ReadCertificateStatus => 14
    case VerifyServerCertificate => 13
    case ReadServerKeyExchange => 12
    case ReadCertificateRequest => 11
    case ReadServerHelloDone => 10
    case SendClientCertificate => 9
    case SendClientKeyExchange => 8
    case SendClientCertificateVerify => 7
    case SendClientFinished => if resumed then 3 else 6
    case FinishFlight => if resumed then 2 else 5
    case ReadSessionTicket => if resumed then 6 else 4
    case ClientProcessChangeCipherSpec => if resumed then 5 else 3
    case ReadServerFinished => if resumed then 4 else 2
    case FinishClientHandshake => 1
    case ClientDone => 0
  }

  /** The states only full handshakes pass. */
  predicate FullOnly(s: ClientState) {
    || s == ReadServerCertificate || s == ReadCertificateStatus || s == VerifyServerCertificate
    || s == ReadServerKeyExchange || s == ReadCertificateRequest || s == ReadServerHelloDone
    || s == SendClientCertificate || s == SendClientKeyExchange || s == SendClientCertificateVerify
  }

  /** What a full handshake has established by this state. */
  predicate Established(s: ClientState, f: Known) {
    var p := Progress(s, false);
    && (p >= 2 ==> f.cipher.Some?)
    && (p >= 3 ==> (SERVER_CERTIFICATE in f.filled <==> f.cipher.value.CertAuth()))
    && (p >= 4 && s != VerifyServerCertificate && SERVER_CERTIFICATE in f.filled ==> f.certsVerified)
    && (p >= 5 && f.cipher.value.RequiresServerKeyExchange() ==> SERVER_KEY_EXCHANGE in f.filled)
    && (p >= 5 && SERVER_KEY_EXCHANGE in f.filled && f.cipher.value.CertAuth() ==> f.keyExchangeSigned)
    && (f.certRequest <==> CERTIFICATE_REQUEST in f.filled)
    && (p >= 8 ==> (CLIENT_CERTIFICATE in f.filled <==> f.certRequest))
    && (p >= 9 <==> f.masterOver.Some?)
    && (p >= 13 ==> (NEXT_PROTO in f.filled <==> f.nextProtoSeen))
    && (p >= 13 ==> (CHANNEL_ID in f.filled <==> f.channelIdValid))
  }

  predicate Resuming(s: ClientState, f: Known) {
    var p := Progress(s, true);
    && !FullOnly(s) && f.masterOver.None? && !f.certRequest
    && (p >= 2 ==> f.cipher.Some?)
    && (p >= 7 ==> (R_NEXT_PROTO in f.filled <==> f.nextProtoSeen))
    && (p >= 7 ==> (R_CHANNEL_ID in f.filled <==> f.channelIdValid))
  }

  /** The server's Finished is part of the transcript and was checked. */
  predicate PeerChecked(over: Option<seq<Message>>, transcript: seq<Message>) {
    over.Some? && over.value + [FinishedOf(true, over.value)] <= transcript
  }

  function ServerFinishedPlace(resumed: bool): nat {
    if resumed then R_SERVER_FINISHED else SERVER_FINISHED
  }

  /** The client's part of SSL_HANDSHAKE, as a value. */
  datatype Side = Side(s: ClientState, resumed: bool, f: Known, t: seq<Message>)

  predicate Settled(v: Side) {
    var p := Progress(v.s, v.resumed);
    && v.s != ClientTls13
    && Kinds(v.t) == Upto(v.resumed, p, v.f.filled)
    && (forall n :: n in v.f.filled ==> n <= p && Optional(v.resumed, n))
    && ServersTurn(v.t) == ServerNext(v.s, v.resumed)
    && v.f.masterOver == KeyExchangePrefix(v.t)
    && (if v.resumed then Resuming(v.s, v.f) else Established(v.s, v.f))
    && (if p >= ServerFinishedPlace(v.resumed) then PeerChecked(v.f.checkedOver, v.t) else v.f.checkedOver.None?)
  }

  /** From v, the step to w keeps what is known and gets closer to the end. */
  predicate Leads(v: Side, w: Side) {
    Settled(w) && Rank(w.s, w.resumed) < Rank(v.s, v.resumed)
  }

  // ----- what a state tells -----

  /** The states in which a record may be read. */
  predicate MayRead(s: ClientState) {
    s != SendClientFinished && s != FinishFlight && s != FinishClientHandshake && s != ClientDone
  }

  /** In all of them the server's Finished is still to come. */
  lemma FinishedToCome(v: Side)
    requires Settled(v) && MayRead(v.s)
    ensures v.f.checkedOver.None?
  {
  }

  lemma Full(v: Side)
    requires Settled(v) && FullOnly(v.s)
    ensures !v.resumed && v.f.cipher.Some?
    ensures v.f.masterOver.Some? <==> v.s == SendClientCertificateVerify
  {
  }

  lemma NeverTls13(v: Side)
    requires Settled(v)
    ensures v.s != ClientTls13
  {
  }

  lemma AtStart(v: Side)
    requires Settled(v) && Progress(v.s, v.resumed) <= 1
    ensures v.f.filled == {} && !v.f.certRequest && v.f.masterOver.None?
    ensures v.s == StartConnect ==> v.t == []
  {
    assert v.t != [] ==> |Kinds(v.t)| > 0;
  }

  // ----- how it moves -----

  lemma FirstMessage(m: Message, resumed: bool)
    requires m.kind == ClientHello
    ensures Kinds([m]) == Upto(resumed, 1, {}) && ServersTurn([m]) && KeyExchangePrefix([m]) == None
  {
    hide KindAt, Optional;
    assert [] + [m] == [m];
    TurnAppend([], m);
    KeyExchangeAppend([], m);
    KindsAppend([], m);
    HelloIsFirst(resumed);
  }

  lemma HelloIsFirst(resumed: bool)
    ensures Upto(resumed, 1, {}) == [ClientHello]
  {
    assert Upto(resumed, 0, {}) == [];
  }

  /** The ClientHello, the session perhaps dropped before. */
  lemma HelloSent(v: Side, resumed: bool, m: Message)
    requires Settled(v) && v.s == StartConnect && (resumed ==> v.resumed) && m.kind == ClientHello
    ensures Leads(v, v.(s := EnterEarlyData, resumed := resumed, t := [m]))
  {
    AtStart(v);
    hide Kinds, Upto, ServersTurn, KeyExchangePrefix;
    FirstMessage(m, resumed);
  }

  lemma EarlyDataPassed(v: Side, s: ClientState)
    requires Settled(v) && (v.s == EnterEarlyData || v.s == ReadHelloVerifyRequest)
    requires (s == ReadHelloVerifyRequest || s == ReadServerHelloState) && s != v.s
    ensures Leads(v, v.(s := s))
  {
  }

  /** The ClientHello again, as the first message of a fresh transcript. */
  lemma HelloSentAgain(v: Side, m: Message)
    requires Settled(v) && v.s == ReadHelloVerifyRequest && m.kind == ClientHello
    ensures Leads(v, v.(s := ReadServerHelloState, t := [m]))
  {
    AtStart(v);
    hide Kinds, Upto, ServersTurn, KeyExchangePrefix;
    FirstMessage(m, v.resumed);
  }

  lemma ServerHelloTaken(v: Side, resumed: bool, f: Known, m: Message)
    requires Settled(v) && v.s == ReadServerHelloState && (resumed ==> v.resumed) && m.kind == ServerHello
    requires f.cipher.Some? && f.filled == v.f.filled && f.certRequest == v.f.certRequest
    requires f.masterOver == v.f.masterOver && f.checkedOver == v.f.checkedOver
    ensures Leads(v, Side(if resumed then ReadSessionTicket else ReadServerCertificate, resumed, f, v.t + [m]))
  {
    AtStart(v);
    HellosFirst(v.resumed, resumed, CLIENT_HELLO, {});
    Fill(resumed, SERVER_HELLO, {}, v.t, m);
    TurnAppend(v.t, m);
    KeyExchangeAppend(v.t, m);
  }

  lemma CertificateTaken(v: Side, m: Message, certs: nat)
    requires Settled(v) && v.s == ReadServerCertificate && m.kind == Certificate
    requires v.f.cipher.Some? && v.f.cipher.value.CertAuth()
    ensures
      var f := v.f.(peerCerts := certs, filled := v.f.filled + {SERVER_CERTIFICATE});
      Leads(v, v.(s := ReadCertificateStatus, f := f, t := v.t + [m]))
  {
    hide Upto, Kinds, ServersTurn, KeyExchangePrefix;
    Fill(false, SERVER_CERTIFICATE, v.f.filled, v.t, m);
    TurnAppend(v.t, m);
    KeyExchangeAppend(v.t, m);
  }

  lemma CertificateSkipped(v: Side)
    requires Settled(v) && v.s == ReadServerCertificate
    requires v.f.cipher.Some? && !v.f.cipher.value.CertAuth()
    ensures Leads(v, v.(s := ReadCertificateStatus))
  {
    hide Upto, Kinds, ServersTurn, KeyExchangePrefix;
    Skip(false, SERVER_CERTIFICATE, v.f.filled);
  }

  lemma StatusTaken(v: Side, m: Message)
    requires Settled(v) && v.s == ReadCertificateStatus && m.kind == CertificateStatus
    ensures Leads(v, v.(s := VerifyServerCertificate, f := v.f.(filled := v.f.filled + {STATUS}), t := v.t + [m]))
  {
    hide Upto, Kinds, ServersTurn, KeyExchangePrefix;
    Fill(false, STATUS, v.f.filled, v.t, m);
    TurnAppend(v.t, m);
    KeyExchangeAppend(v.t, m);
  }

  lemma StatusSkipped(v: Side)
    requires Settled(v) && v.s == ReadCertificateStatus
    ensures Leads(v, v.(s := VerifyServerCertificate))
  {
    hide Upto, Kinds, ServersTurn, KeyExchangePrefix;
    Skip(false, STATUS, v.f.filled);
  }

  lemma CertificateVerified(v: Side)
    requires Settled(v) && v.s == VerifyServerCertificate
    ensures Leads(v, v.(s := ReadServerKeyExchange, f := v.f.(certsVerified := true)))
    ensures v.f.cipher.Some? && (!v.f.cipher.value.CertAuth() ==> Leads(v, v.(s := ReadServerKeyExchange)))
  {
  }

  lemma KeyExchangeTaken(v: Side, m: Message, signed: bool)
    requires Settled(v) && v.s == ReadServerKeyExchange && m.kind == ServerKeyExchange
    requires v.f.cipher.Some? && (v.f.cipher.value.CertAuth() ==> signed)
    ensures
      var f := v.f.(filled := v.f.filled + {SERVER_KEY_EXCHANGE}, keyExchangeSigned := signed);
      Leads(v, v.(s := ReadCertificateRequest, f := f, t := v.t + [m]))
  {
    hide Upto, Kinds, ServersTurn, KeyExchangePrefix;
    Fill(false, SERVER_KEY_EXCHANGE, v.f.filled, v.t, m);
    TurnAppend(v.t, m);
    KeyExchangeAppend(v.t, m);
  }

  lemma KeyExchangeSkipped(v: Side)
    requires Settled(v) && v.s == ReadServerKeyExchange
    requires v.f.cipher.Some? && !v.f.cipher.value.RequiresServerKeyExchange()
    ensures Leads(v, v.(s := ReadCertificateRequest))
  {
    hide Upto, Kinds, ServersTurn, KeyExchangePrefix;
    Skip(false, SERVER_KEY_EXCHANGE, v.f.filled);
  }

  lemma RequestTaken(v: Side, m: Message)
    requires Settled(v) && v.s == ReadCertificateRequest && m.kind == CertificateRequest
    ensures
      var f := v.f.(filled := v.f.filled + {CERTIFICATE_REQUEST}, certRequest := true);
      Leads(v, v.(s := ReadServerHelloDone, f := f, t := v.t + [m]))
  {
    hide Upto, Kinds, ServersTurn, KeyExchangePrefix;
    Fill(false, CERTIFICATE_REQUEST, v.f.filled, v.t, m);
    TurnAppend(v.t, m);
    KeyExchangeAppend(v.t, m);
  }

  lemma RequestSkipped(v: Side)
    requires Settled(v) && v.s == ReadCertificateRequest
    ensures Leads(v, v.(s := ReadServerHelloDone))
  {
    hide Upto, Kinds, ServersTurn, KeyExchangePrefix;
    Skip(false, CERTIFICATE_REQUEST, v.f.filled);
  }

  lemma HelloDoneTaken(v: Side, m: Message)
    requires Settled(v) && v.s == ReadServerHelloDone && m.kind == ServerHelloDone
    ensures Leads(v, v.(s := SendClientCertificate, t := v.t + [m]))
  {
    hide Upto, Kinds, ServersTurn, KeyExchangePrefix;
    Fill(false, HELLO_DONE, v.f.filled, v.t, m);
    TurnAppend(v.t, m);
    KeyExchangeAppend(v.t, m);
  }

  lemma ClientCertificateSent(v: Side, m: Message)
    requires Settled(v) && v.s == SendClientCertificate && v.f.certRequest && m.kind == Certificate
    ensures Leads(v, v.(s := SendClientKeyExchange, f := v.f.(filled := v.f.filled + {CLIENT_CERTIFICATE}),
                        t := v.t + [m]))
  {
    hide Upto, Kinds, ServersTurn, KeyExchangePrefix;
    Fill(false, CLIENT_CERTIFICATE, v.f.filled, v.t, m);
    TurnAppend(v.t, m);
    KeyExchangeAppend(v.t, m);
  }

  lemma ClientCertificateSkipped(v: Side)
    requires Settled(v) && v.s == SendClientCertificate && !v.f.certRequest
    ensures Leads(v, v.(s := SendClientKeyExchange))
  {
    hide Upto, Kinds, ServersTurn, KeyExchangePrefix;
    Skip(false, CLIENT_CERTIFICATE, v.f.filled);
  }

  lemma ClientKeyExchangeSent(v: Side, m: Message)
    requires Settled(v) && v.s == SendClientKeyExchange && m.kind == ClientKeyExchange
    ensures Leads(v, v.(s := SendClientCertificateVerify, f := v.f.(masterOver := Some(v.t + [m])), t := v.t + [m]))
  {
    hide Upto, Kinds, ServersTurn, KeyExchangePrefix;
    Fill(false, CLIENT_KEY_EXCHANGE, v.f.filled, v.t, m);
    TurnAppend(v.t, m);
    KeyExchangeAppend(v.t, m);
  }

  lemma VerifySent(v: Side, m: Message)
    requires Settled(v) && v.s == SendClientCertificateVerify && m.kind == CertificateVerify
    ensures Leads(v, v.(s := SendClientFinished, f := v.f.(filled := v.f.filled + {VERIFY}), t := v.t + [m]))
  {
    hide Upto, Kinds, ServersTurn, KeyExchangePrefix;
    Fill(false, VERIFY, v.f.filled, v.t, m);
    TurnAppend(v.t, m);
    KeyExchangeAppend(v.t, m);
  }

  lemma VerifySkipped(v: Side)
    requires Settled(v) && v.s == SendClientCertificateVerify
    ensures Leads(v, v.(s := SendClientFinished))
  {
    hide Upto, Kinds, ServersTurn, KeyExchangePrefix;
    Skip(false, VERIFY, v.f.filled);
  }

  // The last client flight: three places, the first two optional.

  function FirstPlace(resumed: bool): nat { if resumed then R_NEXT_PROTO else NEXT_PROTO }

  /** Before place n of that flight; `t` has grown since v. */
  predicate Finishing(v: Side, n: nat, filled: set<nat>, t: seq<Message>) {
    && v.s == SendClientFinished && FirstPlace(v.resumed) <= n <= FirstPlace(v.resumed) + 2
    && Settled(v) && v.t <= t && Kinds(t) == Upto(v.resumed, n - 1, filled) && !ServersTurn(t)
    && v.f.masterOver == KeyExchangePrefix(t)
    && v.f.filled <= filled && (forall k :: k in filled ==> k in v.f.filled || FirstPlace(v.resumed) <= k < n)
    && (FirstPlace(v.resumed) < n ==> (FirstPlace(v.resumed) in filled <==> v.f.nextProtoSeen))
    && (FirstPlace(v.resumed) + 1 < n ==> (FirstPlace(v.resumed) + 1 in filled <==> v.f.channelIdValid))
  }

  lemma FinishingStarts(v: Side)
    requires Settled(v) && v.s == SendClientFinished
    ensures Finishing(v, FirstPlace(v.resumed), v.f.filled, v.t)
  {
  }

  lemma FinishingFill(v: Side, n: nat, filled: set<nat>, t: seq<Message>, m: Message)
    requires Finishing(v, n, filled, t) && n < FirstPlace(v.resumed) + 2
    requires if n == FirstPlace(v.resumed) then v.f.nextProtoSeen && m.kind == NextProto
             else v.f.channelIdValid && m.kind == ChannelId
    ensures Finishing(v, n + 1, filled + {n}, t + [m])
  {
    hide Upto, Kinds, ServersTurn, KeyExchangePrefix;
    Fill(v.resumed, n, filled, t, m);
    TurnAppend(t, m);
    KeyExchangeAppend(t, m);
  }

  lemma FinishingSkip(v: Side, n: nat, filled: set<nat>, t: seq<Message>)
    requires Finishing(v, n, filled, t) && n < FirstPlace(v.resumed) + 2
    requires if n == FirstPlace(v.resumed) then !v.f.nextProtoSeen else !v.f.channelIdValid
    ensures Finishing(v, n + 1, filled, t)
  {
    assert n !in v.f.filled;
    Skip(v.resumed, n, filled);
  }

  lemma FinishedEstablishes(v: Side, filled: set<nat>, t: seq<Message>)
    requires Finishing(v, FirstPlace(v.resumed) + 2, filled, t)
    ensures if v.resumed then Resuming(FinishFlight, v.f.(filled := filled))
            else Established(FinishFlight, v.f.(filled := filled))
    ensures forall n :: n in filled ==> n < FirstPlace(v.resumed) + 2 && Optional(v.resumed, n)
  {
    hide Upto, Kinds, ServersTurn, KeyExchangePrefix;
  }

  lemma StillChecked(v: Side, filled: set<nat>, t: seq<Message>)
    requires Finishing(v, FirstPlace(v.resumed) + 2, filled, t)
    ensures if v.resumed then PeerChecked(v.f.checkedOver, t + [FinishedOf(false, t)]) else v.f.checkedOver.None?
  {
    hide Upto, Kinds, ServersTurn, KeyExchangePrefix, Established, Resuming;
  }

  lemma FinishedSent(v: Side, filled: set<nat>, t: seq<Message>)
    requires Finishing(v, FirstPlace(v.resumed) + 2, filled, t)
    ensures Leads(v, v.(s := FinishFlight, f := v.f.(filled := filled), t := t + [FinishedOf(false, t)]))
  {
    hide Upto, Kinds, ServersTurn, KeyExchangePrefix, Established, Resuming, PeerChecked;
    FinishedEstablishes(v, filled, t);
    StillChecked(v, filled, t);
    TurnAppend(t, FinishedOf(false, t));
    KeyExchangeAppend(t, FinishedOf(false, t));
    Fill(v.resumed, FirstPlace(v.resumed) + 2, filled, t, FinishedOf(false, t));
  }

  lemma FlightFinished(v: Side)
    requires Settled(v) && v.s == FinishFlight
    ensures Leads(v, v.(s := if v.resumed then FinishClientHandshake else ReadSessionTicket))
  {
  }

  function TicketPlace(resumed: bool): nat { if resumed then R_TICKET else TICKET }

  lemma TicketEstablishes(v: Side)
    requires Settled(v) && v.s == ReadSessionTicket
    ensures
      var f := v.f.(filled := v.f.filled + {TicketPlace(v.resumed)});
      if v.resumed then Resuming(ClientProcessChangeCipherSpec, f) else Established(ClientProcessChangeCipherSpec, f)
  {
    hide Upto, Kinds, ServersTurn, KeyExchangePrefix;
  }

  lemma TicketTaken(v: Side, m: Message)
    requires Settled(v) && v.s == ReadSessionTicket && m.kind == NewSessionTicket
    ensures Leads(v, v.(s := ClientProcessChangeCipherSpec,
                        f := v.f.(filled := v.f.filled + {TicketPlace(v.resumed)}), t := v.t + [m]))
  {
    hide Upto, Kinds, ServersTurn, KeyExchangePrefix, Established, Resuming;
    TicketEstablishes(v);
    TurnAppend(v.t, m);
    KeyExchangeAppend(v.t, m);
    Fill(v.resumed, TicketPlace(v.resumed), v.f.filled, v.t, m);
  }

  lemma TicketSkipped(v: Side)
    requires Settled(v) && v.s == ReadSessionTicket
    ensures Leads(v, v.(s := ClientProcessChangeCipherSpec))
  {
    hide Upto, Kinds, ServersTurn, KeyExchangePrefix;
    Skip(v.resumed, TicketPlace(v.resumed), v.f.filled);
  }

  lemma ChangeProcessed(v: Side)
    requires Settled(v) && v.s == ClientProcessChangeCipherSpec
    ensures Leads(v, v.(s := ReadServerFinished))
  {
  }

  lemma NothingLeftToEstablish(f: Known, over: seq<Message>)
    requires Established(ReadServerFinished, f)
    ensures Established(FinishClientHandshake, f.(checkedOver := Some(over)))
  {
  }

  lemma JustChecked(t: seq<Message>)
    ensures PeerChecked(Some(t), t + [FinishedOf(true, t)])
    ensures !Optional(false, SERVER_FINISHED) && KindAt(false, SERVER_FINISHED) == Finished
    ensures !Optional(true, R_SERVER_FINISHED) && KindAt(true, R_SERVER_FINISHED) == Finished
  {
  }

  lemma ServerFinishedTaken(v: Side)
    requires Settled(v) && v.s == ReadServerFinished && !v.resumed
    ensures Leads(v, v.(s := FinishClientHandshake, f := v.f.(checkedOver := Some(v.t)),
                        t := v.t + [FinishedOf(true, v.t)]))
  {
    hide Upto, Kinds, ServersTurn, KeyExchangePrefix, Resuming, Established;
    hide PeerChecked, KindAt;
    JustChecked(v.t);
    NothingLeftToEstablish(v.f, v.t);
    TurnAppend(v.t, FinishedOf(true, v.t));
    KeyExchangeAppend(v.t, FinishedOf(true, v.t));
    Fill(false, SERVER_FINISHED, v.f.filled, v.t, FinishedOf(true, v.t));
  }

  lemma StillResuming(v: Side)
    requires Settled(v) && v.s == ReadServerFinished && v.resumed
    ensures Resuming(SendClientFinished, v.f.(checkedOver := Some(v.t)))
    ensures KindAt(true, R_SERVER_FINISHED) == Finished
  {
    hide Upto, Kinds, ServersTurn, KeyExchangePrefix, Established, PeerChecked;
  }

  lemma ServerFinishedTakenResumed(v: Side)
    requires Settled(v) && v.s == ReadServerFinished && v.resumed
    ensures Leads(v, v.(s := SendClientFinished, f := v.f.(checkedOver := Some(v.t)),
                        t := v.t + [FinishedOf(true, v.t)]))
  {
    hide Upto, Kinds, ServersTurn, KeyExchangePrefix, Resuming, Established, PeerChecked, KindAt;
    JustChecked(v.t);
    StillResuming(v);
    TurnAppend(v.t, FinishedOf(true, v.t));
    KeyExchangeAppend(v.t, FinishedOf(true, v.t));
    Fill(true, R_SERVER_FINISHED, v.f.filled, v.t, FinishedOf(true, v.t));
  }

  lemma Completed(v: Side)
    requires Settled(v) && v.s == FinishClientHandshake
    ensures Leads(v, v.(s := ClientDone))
  {
  }

  // ----- the machine as a relation -----

  /** The step from v to w, passing the messages ms (taken or sent). */
  predicate Move(v: Side, w: Side, ms: seq<Message>) {
    match v.s
    case StartConnect =>
      Sends(ms, ClientHello) && (w.resumed ==> v.resumed) && w == v.(s := EnterEarlyData, resumed := w.resumed, t := ms)
    case EnterEarlyData =>
      ms == [] && (w.s == ReadHelloVerifyRequest || w.s == ReadServerHelloState) && w == v.(s := w.s)
    case ReadHelloVerifyRequest =>
      w == v.(s := ReadServerHelloState, t := w.t)
      && if ms == [] then w.t == v.t else Sends(ms, ClientHello) && w.t == ms
    case ReadServerHelloState =>
      && Sends(ms, ServerHello) && (w.resumed ==> v.resumed) && w.f.cipher.Some?
      && w.s == (if w.resumed then ReadSessionTicket else ReadServerCertificate)
      && w.f == v.f.(cipher := w.f.cipher, nextProtoSeen := w.f.nextProtoSeen, channelIdValid := w.f.channelIdValid)
      && w == v.(s := w.s, resumed := w.resumed, f := w.f, t := v.t + ms)
    case ReadServerCertificate =>
      if CertAuth(v) then
        && Sends(ms, Certificate) && w.f.peerCerts > 0
        && w == Filled(v.(f := v.f.(peerCerts := w.f.peerCerts)), ReadCertificateStatus, SERVER_CERTIFICATE, ms)
      else ms == [] && w == v.(s := ReadCertificateStatus)
    case ReadCertificateStatus =>
      if ms == [] then w == v.(s := VerifyServerCertificate)
      else Sends(ms, CertificateStatus) && w == Filled(v, VerifyServerCertificate, STATUS, ms)
    case VerifyServerCertificate =>
      && ms == []
      && w == v.(s := ReadServerKeyExchange, f := v.f.(certsVerified := v.f.certsVerified || CertAuth(v)))
    case ReadServerKeyExchange =>
      if ms == [] then
        v.f.cipher.Some? && !v.f.cipher.value.RequiresServerKeyExchange() && w == v.(s := ReadCertificateRequest)
      else
        && Sends(ms, ServerKeyExchange) && (CertAuth(v) ==> w.f.keyExchangeSigned)
        && w == Filled(v.(f := v.f.(keyExchangeSigned := w.f.keyExchangeSigned)), ReadCertificateRequest,
                       SERVER_KEY_EXCHANGE, ms)
    case ReadCertificateRequest =>
      if ms == [] then w == v.(s := ReadServerHelloDone)
      else
        && Sends(ms, CertificateRequest) && CertAuth(v)
        && w == Filled(v.(f := v.f.(certRequest := true)), ReadServerHelloDone, CERTIFICATE_REQUEST, ms)
    case ReadServerHelloDone =>
      Sends(ms, ServerHelloDone) && w == v.(s := SendClientCertificate, t := v.t + ms)
    case SendClientCertificate =>
      if v.f.certRequest then Sends(ms, Certificate) && w == Filled(v, SendClientKeyExchange, CLIENT_CERTIFICATE, ms)
      else ms == [] && w == v.(s := SendClientKeyExchange)
    case SendClientKeyExchange =>
      && Sends(ms, ClientKeyExchange)
      && w == v.(s := SendClientCertificateVerify, f := v.f.(masterOver := Some(v.t + ms)), t := v.t + ms)
    case SendClientCertificateVerify =>
      if ms == [] then w == v.(s := SendClientFinished)
      else
        && Sends(ms, CertificateVerify) && ms[0].body == Signed(v.t) && v.f.certRequest
        && w == Filled(v, SendClientFinished, VERIFY, ms)
    case SendClientFinished =>
      w == v.(s := FinishFlight, f := FinalKnown(v.f, v.resumed), t := v.t + ms) && FinalFlight(v, ms)
    case FinishFlight =>
      ms == [] && w == v.(s := if v.resumed then FinishClientHandshake else ReadSessionTicket)
    case ReadSessionTicket =>
      if ms == [] then w == v.(s := ClientProcessChangeCipherSpec)
      else
        Sends(ms, NewSessionTicket) && w == Filled(v, ClientProcessChangeCipherSpec, TicketPlace(v.resumed), ms)
    case ClientProcessChangeCipherSpec =>
      ms == [] && w == v.(s := ReadServerFinished)
    case ReadServerFinished =>
      && ms == [FinishedOf(true, v.t)]
      && w == v.(s := if v.resumed then SendClientFinished else FinishClientHandshake, 
                f := v.f.(checkedOver := Some(v.t)), t := v.t + ms)
    case FinishClientHandshake =>
      ms == [] && w == v.(s := ClientDone)
    case ClientTls13 => false
    case ClientDone => false
  }

  predicate Sends(ms: seq<Message>, kind: Kind) {
    |ms| == 1 && ms[0].kind == kind
  }

  predicate CertAuth(v: Side) {
    v.f.cipher.Some? && v.f.cipher.value.CertAuth()
  }

  function Filled(v: Side, s: ClientState, n: nat, ms: seq<Message>): Side {
    v.(s := s, f := v.f.(filled := v.f.filled + {n}), t := v.t + ms)
  }

  /** With the places of NextProtocol and Channel ID filled as negotiated. */
  function FinalKnown(f: Known, resumed: bool): Known {
    f.(filled := f.filled + (if f.nextProtoSeen then {FirstPlace(resumed)} else {})
                 + (if f.channelIdValid then {FirstPlace(resumed) + 1} else {}))
  }

  /** NextProtocol and Channel ID as negotiated, then Finished. */
  predicate FinalFlight(v: Side, ms: seq<Message>) {
    var proto := if v.f.nextProtoSeen then 1 else 0;
    var channel := if v.f.channelIdValid then 1 else 0;
    && |ms| == proto + channel + 1
    && (v.f.nextProtoSeen ==> ms[0].kind == NextProto)
    && (v.f.channelIdValid ==> ms[proto].kind == ChannelId)
    && ms[|ms| - 1] == FinishedOf(false, v.t + ms[..|ms| - 1])
  }

  /** The final flight, put together. */
  lemma FinalFlightOf(v: Side, ps: seq<Message>, cs: seq<Message>)
    requires |ps| == (if v.f.nextProtoSeen then 1 else 0) && (v.f.nextProtoSeen ==> ps[0].kind == NextProto)
    requires |cs| == (if v.f.channelIdValid then 1 else 0) && (v.f.channelIdValid ==> cs[0].kind == ChannelId)
    ensures FinalFlight(v, ps + cs + [FinishedOf(false, v.t + ps + cs)])
    ensures v.t + ps + cs + [FinishedOf(false, v.t + ps + cs)] == v.t + (ps + cs + [FinishedOf(false, v.t + ps + cs)])
  {
    var ms := ps + cs + [FinishedOf(false, v.t + ps + cs)];
    assert ms[..|ms| - 1] == ps + cs && v.t + (ps + cs) == v.t + ps + cs;
  }

  lemma FinalFlightSent(v: Side, w: Side, ms: seq<Message>)
    requires Settled(v) && v.s == SendClientFinished && Move(v, w, ms)
    ensures Leads(v, w)
  {
    hide Settled, Leads;
    var n, filled, t := FirstPlace(v.resumed), v.f.filled, v.t;
    FinishingStarts(v);
    if v.f.nextProtoSeen {
      FinishingFill(v, n, filled, t, ms[0]);
      filled, t := filled + {n}, t + [ms[0]];
    } else {
      FinishingSkip(v, n, filled, t);
    }
    if v.f.channelIdValid {
      FinishingFill(v, n + 1, filled, t, ms[|ms| - 2]);
      filled, t := filled + {n + 1}, t + [ms[|ms| - 2]];
    } else {
      FinishingSkip(v, n + 1, filled, t);
    }
    assert t == v.t + ms[..|ms| - 1];
    FinishedSent(v, filled, t);
    assert v.t + ms == t + [FinishedOf(false, t)];
    assert w.f.filled == filled;
  }

  /** Every step keeps what is known and gets closer to the end. */
  lemma MoveLeads(v: Side, w: Side, ms: seq<Message>)
    requires Settled(v) && Move(v, w, ms)
    ensures Leads(v, w)
  {
    hide Settled, Leads;
    match v.s
    case StartConnect => HelloSent(v, w.resumed, ms[0]); assert ms == [ms[0]];
    case EnterEarlyData => EarlyDataPassed(v, w.s);
    case ReadHelloVerifyRequest =>
      if ms == [] {
        EarlyDataPassed(v, w.s);
      } else {
        HelloSentAgain(v, ms[0]);
        assert ms == [ms[0]];
      }
    case ReadServerHelloState => ServerHelloTaken(v, w.resumed, w.f, ms[0]); assert ms == [ms[0]];
    case VerifyServerCertificate => CertificateVerified(v);
    case SendClientFinished => FinalFlightSent(v, w, ms);
    case FinishFlight => FlightFinished(v);
    case ClientProcessChangeCipherSpec => ChangeProcessed(v);
    case ReadServerFinished =>
      if v.resumed {
        ServerFinishedTakenResumed(v);
      } else {
        ServerFinishedTaken(v);
      }
    case FinishClientHandshake => Completed(v);
    case _ =>
      if ms == [] {
        NothingPassed(v, w);
      } else {
        OnePassed(v, w, ms);
      }
  }

  lemma NothingPassed(v: Side, w: Side)
    requires Settled(v) && Move(v, w, [])
    requires (FullOnly(v.s) && v.s != VerifyServerCertificate) || v.s == ReadSessionTicket
    ensures Leads(v, w)
  {
    hide Settled, Leads;
    if v.s == ReadSessionTicket {
      TicketSkipped(v);
    } else {
      Full(v);
      match v.s
      case ReadServerCertificate => CertificateSkipped(v);
      case ReadCertificateStatus => StatusSkipped(v);
      case ReadServerKeyExchange => KeyExchangeSkipped(v);
      case ReadCertificateRequest => RequestSkipped(v);
      case SendClientCertificate => ClientCertificateSkipped(v);
      case SendClientCertificateVerify => VerifySkipped(v);
      case _ =>
    }
  }

  lemma OnePassed(v: Side, w: Side, ms: seq<Message>)
    requires Settled(v) && Move(v, w, ms) && ms != []
    requires (FullOnly(v.s) && v.s != VerifyServerCertificate) || v.s == ReadSessionTicket
    ensures Leads(v, w)
  {
    hide Settled, Leads;
    if v.s == ReadSessionTicket {
      assert ms == [ms[0]];
      TicketTaken(v, ms[0]);
    } else {
      hide Move;
      if ServerNext(v.s, false) {
        OneTaken(v, w, ms);
      } else {
        OneSent(v, w, ms);
      }
    }
  }

  lemma OneTaken(v: Side, w: Side, ms: seq<Message>)
    requires Settled(v) && Move(v, w, ms) && ms != []
    requires FullOnly(v.s) && v.s != VerifyServerCertificate && ServerNext(v.s, false)
    ensures Leads(v, w)
  {
    hide Settled, Leads;
    assert ms == [ms[0]];
    Full(v);
    if v.s == ReadServerCertificate {
      CertificateTaken(v, ms[0], w.f.peerCerts);
    } else if v.s == ReadCertificateStatus {
      StatusTaken(v, ms[0]);
    } else if v.s == ReadServerKeyExchange {
      KeyExchangeTaken(v, ms[0], w.f.keyExchangeSigned);
    } else if v.s == ReadCertificateRequest {
      RequestTaken(v, ms[0]);
    } else {
      HelloDoneTaken(v, ms[0]);
    }
  }

  lemma OneSent(v: Side, w: Side, ms: seq<Message>)
    requires Settled(v) && Move(v, w, ms) && ms != []
    requires FullOnly(v.s) && !ServerNext(v.s, false)
    ensures Leads(v, w)
  {
    hide Settled, Leads;
    assert ms == [ms[0]];
    Full(v);
    if v.s == SendClientCertificate {
      ClientCertificateSent(v, ms[0]);
    } else if v.s == SendClientKeyExchange {
      ClientKeyExchangeSent(v, ms[0]);
    } else {
      VerifySent(v, ms[0]);
    }
  }
}
