/** SSL_HANDSHAKE as far as the machines up to TLS 1.2 use it, and what both
    sides share (handshake.cc, s3_both.cc). */
module TlsCore {
  import opened Prelude
  import opened TlsTranscript

  datatype Wait =
    | Error | Ok | ReadServerHello | ReadMessage | Flush | CertificateSelectionPending | Handoff
    | X509Lookup | ChannelIdLookup | PrivateKeyOperation | PendingSession | PendingTicket
    | EarlyReturn | ReadChangeCipherSpec | VerifyPending

  /** The waits in which ssl_run_handshake opens a record. */
  predicate Reads(w: Wait) {
    w == ReadMessage || w == ReadServerHello || w == ReadChangeCipherSpec
  }

  datatype KeyExchange = KRsa | KEcdhe | KPsk

  datatype Auth = ARsa | AEcdsa | APsk

  datatype Suite = Suite(mkey: KeyExchange, auth: Auth, aead: bool)
  {
    /** ssl_cipher_uses_certificate_auth */
    predicate CertAuth() { auth != APsk }

    /** ssl_cipher_requires_server_key_exchange */
    predicate RequiresServerKeyExchange() { mkey == KEcdhe }
  }

  const TLS1_2: nat := 0x0303
  const TLS1_3: nat := 0x0304

  datatype ClientState =
    | StartConnect | EnterEarlyData | ReadHelloVerifyRequest | ReadServerHelloState | ClientTls13
    | ReadServerCertificate | ReadCertificateStatus | VerifyServerCertificate | ReadServerKeyExchange
    | ReadCertificateRequest | ReadServerHelloDone | SendClientCertificate | SendClientKeyExchange
    | SendClientCertificateVerify | SendClientFinished | FinishFlight | ReadSessionTicket
    | ClientProcessChangeCipherSpec | ReadServerFinished | FinishClientHandshake | ClientDone

  datatype ServerState =
    | StartAccept | ReadClientHello | SelectCertificate | ServerTls13 | SelectParameters | SendServerHello
    | SendServerCertificate | SendServerKeyExchange | SendServerHelloDone | ReadClientCertificate
    | VerifyClientCertificate | ReadClientKeyExchange | ReadClientCertificateVerify | ReadChangeCipherSpecState
    | ServerProcessChangeCipherSpec | ReadNextProto | ReadChannelId | ReadClientFinished | SendServerFinished
    | FinishServerHandshake | ServerDone

  /** What can go wrong in a step outside the machine. */
  datatype Fault =
    // memory, randomness and keys
    | Unhashed | Unadded | CcsUnadded | Underived | NoRandom | NoKeys | NoTranscript | NoSession
    | Unlogged | FinishedMisfit | SecretsFailed | SigningFailed | HashesUnrecorded | Unstored | Uncopied | Unencrypted
    // the message that is read
    | Unparsed | ExtensionsRefused | TrailingBytes | CompressionRefused | VersionRefused
    | EchoInvalid | CipherRefused | SessionMisfit | SecretsMisfit
    | LeafRefused | HintRefused | ParamsRefused | BadSignature | IdentityRefused
    // the application
    | CallbackFailed | CertificateUnselected | AlpnRefused | ConnectionRejected

  datatype Verdict = Good | Invalid | Undecided

  /** What a step finds outside the machine: what goes wrong, what the message
      that is read says, and what configuration and callbacks decide. */
  datatype Env = Env(
    faults: set<Fault>,
    /** the callback or private key operation asked is to be asked again */
    later: bool,
    verdict: Verdict, lookup: Wait, tls13: Wait, handoff: bool,
    /** the body of the message to be sent */
    body: seq<byte>,
    version: nat, cipher: Option<Suite>, nextProto: bool, channelId: bool, status: bool, ticket: bool,
    certs: nat, ticketEmpty: bool,
    /** the session offered, echoed or found can be resumed */
    resumable: bool,
    hashesRecorded: bool, early: bool, localCert: bool, verifyPeer: bool, unlessChannelId: bool,
    failIfNoPeerCert: bool, pskHint: bool, falseStart: bool, protocolChosen: bool)

  /** Nothing goes wrong, nobody asks for time, and it is not TLS 1.3. */
  predicate Obliging(e: Env) {
    && e.faults == {} && !e.later && e.verdict == Good && e.lookup == Ok && !e.handoff
    && e.version < TLS1_3 && e.cipher.Some?
  }

  /** What a flight is made of. */
  datatype Item = Handshake(message: Message) | ChangeCipherSpec

  function Messages(items: seq<Item>): seq<Message> {
    if items == [] then []
    else Messages(items[..|items| - 1]) +
         (match items[|items| - 1] case Handshake(m) => [m] case ChangeCipherSpec => [])
  }

  lemma MessagesAppend(items: seq<Item>, i: Item)
    ensures Messages(items + [i]) == Messages(items) + (match i case Handshake(m) => [m] case ChangeCipherSpec => [])
  {
    assert (items + [i])[..|items|] == items;
  }

  ghost predicate NoVerifyRequest(ms: seq<Message>) {
    forall m :: m in ms ==> m.kind != HelloVerifyRequest
  }

  /** The messages as they stand in a flight. */
  function Items(ms: seq<Message>): seq<Item> {
    if ms == [] then [] else Items(ms[..|ms| - 1]) + [Handshake(ms[|ms| - 1])]
  }

  lemma OneItem(m: Message)
    ensures Items([m]) == [Handshake(m)]
  {
    assert [m][..0] == [];
    assert Items([]) == [];
  }

  lemma {:induction false} ItemsAppend(a: seq<Message>, b: seq<Message>)
    ensures Items(a + b) == Items(a) + Items(b)
    decreases |b|
  {
    if b == [] {
      assert a + b == a;
    } else {
      var c := b[..|b| - 1];
      ItemsAppend(a, c);
      assert (a + b)[..|a + b| - 1] == a + c;
    }
  }

  lemma FlightAppend(flight: seq<Item>, a: seq<Message>, b: seq<Message>)
    ensures flight + Items(a) + Items(b) == flight + Items(a + b)
  {
    ItemsAppend(a, b);
  }

  /** What the handshake has settled: parameters of SSL_HANDSHAKE first, then
      history for the proofs. */
  datatype Known = Known(
    cipher: Option<Suite>, certRequest: bool, nextProtoSeen: bool, channelIdValid: bool,
    /** server_params is not empty: a ServerKeyExchange is to be sent */
    serverParams: bool,
    /** the peer's chain, which has a peer_pubkey unless it is empty */
    peerCerts: nat,
    /** optional places of the script that are filled */
    filled: set<nat>,
    certsVerified: bool, keyExchangeSigned: bool,
    /** the transcripts that the peer's CertificateVerify and Finished were
        checked against, and the one the master secret was derived from */
    signatureOver: Option<seq<Message>>, checkedOver: Option<seq<Message>>, masterOver: Option<seq<Message>>)

  const NOTHING_KNOWN := Known(None, false, false, false, false, 0, {}, false, false, None, None, None)

  /** The history of this transcript: its own messages and the other side's. */
  datatype Log = Log(sent: seq<Message>, received: seq<Message>)

  /** The history of the connection: everything written out, everything that
      came in, and how many messages of each preceded a HelloVerifyRequest,
      itself included. */
  datatype Channel = Channel(wire: seq<Item>, arrived: seq<Message>, sentBefore: nat, receivedBefore: nat)

  const NOTHING_SAID := Channel([], [], 0, 0)

  /** The history fits a side that has the transcript t, such a flight and such
      an inbox: what it wrote or is about to write is what t says it said, and
      what came in is what t says the other side said, and then the inbox. */
  ghost predicate Accounts(
      isServer: bool, channel: Channel, t: seq<Message>, flight: seq<Item>, inbox: seq<Message>) {
    var out := Messages(channel.wire + flight);
    && channel.sentBefore <= |out| && out[channel.sentBefore..] == From(isServer, t)
    && channel.receivedBefore <= |channel.arrived|
    && channel.arrived[channel.receivedBefore..] == From(!isServer, t) + inbox
    && Honest(isServer, t)
  }

  class Hs {
    const isServer: bool
    const dtls: bool

    var clientState: ClientState
    var serverState: ServerState
    var wait: Wait
    /** ssl->session != NULL: offered by the client at first, then resumed. */
    var session: bool
    var version: nat
    var known: Known
    var earlyDataOffered: bool
    var certificateStatusExpected: bool
    var ticketExpected: bool
    /** ssl_has_certificate */
    var localCert: bool
    var transcript: seq<Message>
    /** hs_buf, message by message */
    var inbox: seq<Message>
    /** The pending flight, and how many of its bytes are written. */
    var flight: seq<Item>
    var offset: nat
    ghost var log: Log
    ghost var channel: Channel
    ghost var tls13: bool

    constructor (isServer: bool, dtls: bool, session: bool)
      ensures this.isServer == isServer && this.dtls == dtls && this.session == session && wait == Ok
      ensures Consistent() && offset == 0 && transcript == [] && !tls13 && known == NOTHING_KNOWN
      ensures clientState == StartConnect && serverState == StartAccept && inbox == [] && flight == []
      ensures version == 0 && !earlyDataOffered && !certificateStatusExpected && !ticketExpected && !localCert
      ensures log == Log([], []) && channel == NOTHING_SAID
    {
      this.isServer, this.dtls, this.session := isServer, dtls, session;
      clientState, serverState, wait := StartConnect, StartAccept, Ok;
      version, known := 0, NOTHING_KNOWN;
      earlyDataOffered, certificateStatusExpected, ticketExpected := false, false, false;
      localCert := false;
      transcript, inbox, flight, offset := [], [], [], 0;
      log, channel, tls13 := Log([], []), NOTHING_SAID, false;
    }

    /** What went out and came in since the last HelloVerifyRequest. */
    ghost predicate Accounted()
      reads this`transcript, this`inbox, this`flight, this`log, this`channel
    {
      var out := Messages(channel.wire + flight);
      && channel.sentBefore <= |out| && out[channel.sentBefore..] == log.sent
      && channel.receivedBefore <= |channel.arrived|
      && channel.arrived[channel.receivedBefore..] == log.received + inbox
      && log.sent == From(isServer, transcript)
      && Honest(isServer, transcript)
    }

    /** What is written or about to be, and what came in, is what the transcript
        says this side and the other one said, each in turn. */
    ghost predicate Consistent()
      reads this`transcript, this`inbox, this`flight, this`log, this`channel
    {
      Accounted() && log.received == From(!isServer, transcript)
    }

    /** The message at the head of the inbox is hashed, but not yet taken. */
    ghost predicate Hashed()
      reads this`transcript, this`inbox, this`flight, this`log, this`channel
    {
      Accounted() && inbox != [] && log.received + [inbox[0]] == From(!isServer, transcript)
    }

    /** ssl3_get_message */
    function GetMessage(): Option<Message>
      reads this`inbox
    {
      if inbox == [] then None else Some(inbox[0])
    }

    /** The next message is of that kind. */
    predicate Comes(kind: Kind)
      reads this`inbox
    {
      inbox != [] && inbox[0].kind == kind
    }

    /** ssl_hash_message, of the message being read. */
    method HashMessage(e: Env) returns (ok: bool)
      requires Consistent() && ServersTurn(transcript) != isServer && inbox != []
      modifies this`transcript
      ensures ok <==> Unhashed !in e.faults
      ensures ok ==> Hashed() && transcript == old(transcript) + [inbox[0]]
      ensures ok ==> ServersTurn(transcript) == (ServersTurn(old(transcript)) != EndsFlight(inbox[0].kind))
    {
      hide Messages, From, ServersTurn, Honest;
      if Unhashed in e.faults {
        return false;
      }
      var m := inbox[0];
      TurnAppend(transcript, m);
      HonestAppend(isServer, transcript, m);
      transcript := transcript + [m];
      ok := true;
    }

    /** ssl3_next_message */
    method NextMessage()
      requires Hashed()
      modifies this`inbox, this`log
      ensures Consistent() && inbox == old(inbox)[1..]
    {
      hide Messages, From, ServersTurn, Honest;
      assert log.received + inbox == log.received + [inbox[0]] + inbox[1..];
      log := log.(received := log.received + [inbox[0]]);
      inbox := inbox[1..];
    }

    /** ssl3_next_message and a fresh transcript, after a HelloVerifyRequest. */
    method NextMessageAndRestart()
      requires Consistent() && inbox != []
      modifies this`inbox, this`transcript, this`log, this`channel
      ensures Consistent() && inbox == old(inbox)[1..] && transcript == []
      ensures channel.wire == old(channel.wire) && channel.arrived == old(channel.arrived)
      ensures channel.receivedBefore > 0
    {
      inbox, transcript := inbox[1..], [];
      log := Log([], []);
      channel := channel.(sentBefore := |Messages(channel.wire + flight)|,
                          receivedBefore := |channel.arrived| - |inbox|);
    }

    /** ssl3_add_message: into the flight and the transcript. */
    method AddMessage(m: Message, e: Env) returns (ok: bool)
      requires Consistent() && ServersTurn(transcript) == isServer && offset == 0
      requires Truthful(isServer, transcript, m)
      modifies this`transcript, this`flight, this`log
      ensures ok <==> Unadded !in e.faults
      ensures ok ==> transcript == old(transcript) + [m] && flight == old(flight) + [Handshake(m)]
      ensures ok ==> ServersTurn(transcript) == (ServersTurn(old(transcript)) != EndsFlight(m.kind))
      ensures ok ==> Consistent()
    {
      hide Messages, From, ServersTurn, Honest;
      if Unadded in e.faults {
        return false;
      }
      TurnAppend(transcript, m);
      HonestAppend(isServer, transcript, m);
      MessagesAppend(channel.wire + flight, Handshake(m));
      assert channel.wire + flight + [Handshake(m)] == channel.wire + (flight + [Handshake(m)]);
      transcript, flight, log := transcript + [m], flight + [Handshake(m)], log.(sent := log.sent + [m]);
      ok := true;
    }

    /** ssl3_add_change_cipher_spec */
    method AddChangeCipherSpec(e: Env) returns (ok: bool)
      requires Consistent() && offset == 0
      modifies this`flight
      ensures ok <==> CcsUnadded !in e.faults
      ensures ok ==> Consistent() && flight == old(flight) + [ChangeCipherSpec]
    {
      hide Messages, From, ServersTurn, Honest;
      if CcsUnadded in e.faults {
        return false;
      }
      MessagesAppend(channel.wire + flight, ChangeCipherSpec);
      assert channel.wire + flight + [ChangeCipherSpec] == channel.wire + (flight + [ChangeCipherSpec]);
      flight := flight + [ChangeCipherSpec];
      ok := true;
    }

    /** tls1_generate_master_secret: from the transcript as it is. */
    method GenerateMasterSecret(e: Env) returns (ok: bool)
      modifies this`known
      ensures ok <==> Underived !in e.faults
      ensures ok ==> known == old(known).(masterOver := Some(transcript))
    {
      if Underived in e.faults {
        return false;
      }
      known := known.(masterOver := Some(transcript));
      ok := true;
    }

    /** ssl_get_finished: Ok exactly if the next message is the other side's
        Finished over the transcript so far. */
    method GetFinished(e: Env) returns (w: Wait)
      requires Consistent() && ServersTurn(transcript) != isServer
      modifies this`transcript, this`inbox, this`log, this`known
      ensures w == Ok || w == Error || w == ReadMessage
      ensures w == ReadMessage <==> old(inbox) == []
      ensures w == Ok <==>
                && old(inbox) != [] && old(inbox)[0] == FinishedOf(!isServer, old(transcript))
                && Unhashed !in e.faults && FinishedMisfit !in e.faults
      ensures w == ReadMessage ==> unchanged(this)
      ensures w == Error ==> inbox == old(inbox) && known == old(known)
      ensures w == Error && Unhashed !in e.faults ==>
                transcript == old(transcript) || transcript == old(transcript) + [inbox[0]]
      ensures w == Ok ==> Consistent() && transcript == old(transcript) + [FinishedOf(!isServer, old(transcript))]
      ensures w == Ok ==> old(inbox) == [FinishedOf(!isServer, old(transcript))] + inbox
      ensures w == Ok ==> known == old(known).(checkedOver := Some(old(transcript)))
      ensures w == Ok ==> ServersTurn(transcript) == isServer
    {
      hide Accounted, Consistent, Hashed, ServersTurn;
      var msg := GetMessage();
      if msg.None? {
        return ReadMessage;
      }
      if msg.value.kind != Finished {
        return Error;
      }
      var finished := Mac(!isServer, transcript);
      var over := transcript;
      var hashed := HashMessage(e);
      if !hashed {
        return Error;
      }
      if msg.value.body != finished {
        return Error;
      }
      if FinishedMisfit in e.faults {
        return Error;
      }
      NextMessage();
      known := known.(checkedOver := Some(over));
      w := Ok;
    }

    /** ssl_send_finished */
    method SendFinished(e: Env) returns (ok: bool)
      requires Consistent() && ServersTurn(transcript) == isServer && offset == 0
      modifies this`transcript, this`flight, this`log
      ensures ok <==> Unlogged !in e.faults && Unadded !in e.faults
      ensures ok ==> Consistent() && transcript == old(transcript) + [FinishedOf(isServer, old(transcript))]
      ensures ok ==> flight == old(flight) + [Handshake(FinishedOf(isServer, old(transcript)))]
      ensures ok ==> ServersTurn(transcript) != isServer
    {
      hide Accounted, Consistent, ServersTurn;
      var finished := Mac(isServer, transcript);
      if Unlogged in e.faults {
        return false;
      }
      ok := AddMessage(Message(Finished, finished), e);
    }

    /** ssl_verify_peer_cert, outside renegotiation: the verdict of the
        certificate checks is the environment's. */
    method VerifyPeerCert(e: Env) returns (w: Wait)
      modifies this`known
      ensures w == match e.verdict case Good => Ok case Invalid => Error case Undecided => VerifyPending
      ensures w == Ok ==> known == old(known).(certsVerified := true)
      ensures w == VerifyPending ==> unchanged(this)
    {
      if e.verdict == Undecided {
        return VerifyPending;
      }
      if e.verdict == Invalid {
        return Error;
      }
      known := known.(certsVerified := true);
      w := Ok;
    }
  }
}
