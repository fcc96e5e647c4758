/** ssl_run_handshake (handshake.cc), whole runs of either side, and the two
    sides together. */
module TlsRun {
  import opened Prelude
  import opened TlsTranscript
  import opened TlsScript
  import opened TlsCore
  import C = TlsClient
  import CSide = TlsClientSide
  import S = TlsServer
  import SSide = TlsServerSide

  ghost predicate Valid(hs: Hs)
    reads hs`tls13, hs`clientState, hs`serverState, hs`session, hs`known, hs`transcript, hs`inbox, hs`flight, hs`log,
          hs`channel, hs`certificateStatusExpected
  {
    if hs.isServer then S.ServerValid(hs) else C.ClientValid(hs)
  }

  predicate Done(hs: Hs)
    reads hs`clientState, hs`serverState
  {
    if hs.isServer then hs.serverState == ServerDone else hs.clientState == ClientDone
  }

  /** What holds between calls. A flight is half written only while the
      handshake waits for the flush, so nothing is ever added to one; it waits
      for a message only when there is none, so a record is always acceptable;
      and it waits for a record only while the other side's Finished is still to
      come, so nothing is read in the handshake after that. */
  ghost predicate Inv(hs: Hs)
    reads hs
  {
    hs.wait != Error ==>
      && Valid(hs)
      && (hs.offset > 0 ==> hs.wait == Flush)
      && (hs.wait == EarlyReturn && !hs.tls13 ==> !hs.isServer && C.Early(hs))
      && ((hs.wait == ReadMessage || hs.wait == ReadServerHello) && !hs.tls13 ==> hs.inbox == [])
      && (Reads(hs.wait) && !hs.tls13 ==> hs.known.checkedOver.None?)
  }

  /** What the transport does next, while the handshake waits for it: takes the
      whole flight or only some bytes; brings whole messages, a ChangeCipherSpec,
      something to try again after, or an error. */
  datatype Io = Written | Blocked(bytes: nat) | Arrives(ms: seq<Message>) | Changes | Retry | Fails

  /** The messages brought. */
  function Brought(ios: seq<Io>): seq<Message> {
    if ios == [] then []
    else
      var last := ios[|ios| - 1];
      Brought(ios[..|ios| - 1]) + (if last.Arrives? then last.ms else [])
  }

  lemma BroughtNext(ios: seq<Io>, i: nat)
    requires i < |ios|
    ensures Brought(ios[..i + 1]) == Brought(ios[..i]) + (if ios[i].Arrives? then ios[i].ms else [])
  {
    assert ios[..i + 1][..i] == ios[..i];
  }

  /** flush_flight */
  method FlushFlight(hs: Hs, io: Io) returns (flushed: bool, wrote: seq<Item>)
    requires Valid(hs)
    modifies hs`flight, hs`offset, hs`channel
    ensures Valid(hs)
    ensures flushed <==> io == Written
    ensures wrote == if flushed then old(hs.flight) else []
    ensures flushed ==> hs.flight == [] && hs.offset == 0
    ensures !flushed ==>
              hs.flight == old(hs.flight) && hs.offset == old(hs.offset) + if io.Blocked? then io.bytes else 0
    ensures hs.channel == old(hs.channel).(wire := old(hs.channel).wire + wrote)
  {
    hide CSide.Settled, SSide.Settled, Messages, From, Honest;
    flushed, wrote := io == Written, [];
    if io == Written {
      wrote := hs.flight;
      assert hs.channel.wire + hs.flight == hs.channel.wire + hs.flight + [];
      hs.channel := hs.channel.(wire := hs.channel.wire + hs.flight);
      hs.flight, hs.offset := [], 0;
    } else {
      assert hs.channel.wire + [] == hs.channel.wire;
      if io.Blocked? {
        hs.offset := hs.offset + io.bytes;
      }
    }
  }

  /** ssl_open_handshake appends what came to hs_buf. */
  method Receive(hs: Hs, ms: seq<Message>)
    requires Valid(hs) && (hs.tls13 || hs.inbox == [])
    modifies hs`inbox, hs`channel
    ensures Valid(hs) && hs.inbox == old(hs.inbox) + ms
    ensures hs.channel == old(hs.channel).(arrived := old(hs.channel).arrived + ms)
  {
    hide CSide.Settled, SSide.Settled, Messages, From, Honest;
    hs.inbox := hs.inbox + ms;
    hs.channel := hs.channel.(arrived := hs.channel.arrived + ms);
  }

  /** What one run of the machine finds outside it, state by state. */
  datatype Envs = Envs(client: ClientState -> Env, server: ServerState -> Env)

  /** Where the machine stood before its last step. */
  datatype Last = Client(x: C.View) | Server(y: S.View)

  /** The last step came out as w, as it had to: if nothing went wrong outside
      the machine, it failed only because the next message, which is still
      there, is out of place, and it did not wait for the application. */
  ghost predicate CameOut(hs: Hs, w: Wait, last: Last, envs: Envs)
    reads hs`clientState, hs`serverState, hs`session, hs`known, hs`transcript, hs`inbox, hs`flight,
          hs`earlyDataOffered, hs`ticketExpected, hs`channel
  {
    match last
    case Client(x) =>
      && !hs.isServer && CSide.Settled(x.side) && C.Ordinary(w, x, envs.client(x.side.s))
      && (w == Error && Obliging(envs.client(x.side.s)) ==>
            && C.StandsAt(hs, x) && Accounts(hs.isServer, hs.channel, x.side.t, x.flight, x.inbox)
            && C.NonePassed(x.side, x.dtls, hs.channel.receivedBefore > 0, x.status, x.inbox))
    case Server(y) =>
      && hs.isServer && SSide.Settled(y.side) && S.Ordinary(w, y, envs.server(y.side.s))
      && (w == Error && S.Untroubled(y, envs.server(y.side.s)) ==>
            S.StandsAt(hs, y) && Accounts(hs.isServer, hs.channel, y.side.t, y.flight, y.inbox))
  }

  /** ssl->do_handshake */
  method DoHandshake(hs: Hs, envs: Envs) returns (w: Wait, ghost last: Last)
    requires Valid(hs) && hs.offset == 0
    modifies hs
    ensures w != Error ==> Valid(hs) && hs.offset == 0
    ensures w == Ok ==> Done(hs)
    ensures w == ReadMessage || w == ReadServerHello ==> hs.tls13 || hs.inbox == []
    ensures Reads(w) ==> hs.tls13 || hs.known.checkedOver.None?
    ensures w == EarlyReturn && !hs.tls13 ==> !hs.isServer && C.Early(hs)
    ensures hs.channel.wire == old(hs.channel.wire) && hs.channel.arrived == old(hs.channel.arrived)
    ensures hs.isServer || NoVerifyRequest(hs.channel.arrived) ==> hs.channel == old(hs.channel)
    ensures hs.tls13 || w == Ok || CameOut(hs, w, last, envs)
  {
    hide CSide.Settled, SSide.Settled, CSide.Rank, SSide.Rank, C.Ordinary, S.Ordinary, C.StandsAt, S.StandsAt;
    hide C.NonePassed, Accounts, Obliging, S.Untroubled;
    if hs.isServer {
      ghost var y;
      w, y := S.ServerHandshake(hs, envs.server);
      last := Server(y);
    } else {
      ghost var x;
      w, x := C.ClientHandshake(hs, envs.client);
      last := Client(x);
    }
  }

  /** What a call does to the connection: it writes `wrote`, takes in what `ios`
      brought, and only a HelloVerifyRequest makes a client start over. */
  ghost predicate Carried(isServer: bool, before: Channel, after: Channel, wrote: seq<Item>, ios: seq<Io>) {
    && after.wire == before.wire + wrote && after.arrived == before.arrived + Brought(ios)
    && (isServer || NoVerifyRequest(after.arrived) ==>
          after.sentBefore == before.sentBefore && after.receivedBefore == before.receivedBefore)
  }

  lemma NothingCarried(isServer: bool, a: Channel, ios: seq<Io>)
    ensures Carried(isServer, a, a, [], ios[..0])
  {
  }

  lemma CarriedMore(
      isServer: bool, a: Channel, b: Channel, c: Channel, wrote: seq<Item>, more: seq<Item>, ios: seq<Io>, used: nat)
    requires used < |ios| && Carried(isServer, a, b, wrote, ios[..used]) && Carried(isServer, b, c, more, [ios[used]])
    ensures Carried(isServer, a, c, wrote + more, ios[..used + 1])
  {
    BroughtNext(ios, used);
    BroughtNext([ios[used]], 0);
    assert [ios[used]][..1] == [ios[used]] && [ios[used]][..0] == [];
    assert NoVerifyRequest(c.arrived) ==> NoVerifyRequest(b.arrived);
  }

  /** The steps of the handshake write nothing out and take nothing in. */
  lemma CarriedStill(isServer: bool, a: Channel, b: Channel, c: Channel, wrote: seq<Item>, ios: seq<Io>)
    requires Carried(isServer, a, b, wrote, ios) && c.wire == b.wire && c.arrived == b.arrived
    requires isServer || NoVerifyRequest(c.arrived) ==> c == b
    ensures Carried(isServer, a, c, wrote, ios)
  {
  }

  lemma CarriedOne(isServer: bool, a: Channel, b: Channel, wrote: seq<Item>, io: Io)
    requires b == a.(wire := a.wire + wrote, arrived := a.arrived + (if io.Arrives? then io.ms else []))
    ensures Carried(isServer, a, b, wrote, [io])
  {
    assert [io][..0] == [] && Brought([io]) == [] + (if io.Arrives? then io.ms else []);
  }

  /** The transport does not do what the handshake waits for, or try again. */
  predicate Stopping(w: Wait, io: Io) {
    if w == Flush then io != Written
    else !io.Arrives? && io != Retry && !(w == ReadChangeCipherSpec && io == Changes)
  }

  datatype Resolution = Resumes | Again | Stops

  /** What the wait for the transport comes to. */
  method Resolve(hs: Hs, io: Io) returns (r: Resolution, wrote: seq<Item>)
    requires Inv(hs) && (hs.wait == Flush || Reads(hs.wait))
    requires io.Arrives? ==> hs.wait == ReadMessage || hs.wait == ReadServerHello
    modifies hs`flight, hs`offset, hs`inbox, hs`channel
    ensures r.Resumes? ==> Valid(hs) && hs.offset == 0
    ensures !r.Resumes? ==> Inv(hs)
    ensures Carried(hs.isServer, old(hs.channel), hs.channel, wrote, [io])
    ensures r.Stops? <==> Stopping(hs.wait, io)
    ensures r.Again? <==> hs.wait != Flush && io == Retry
  {
    hide Valid, Carried;
    wrote := [];
    ghost var before := hs.channel;
    if hs.wait == Flush {
      var flushed;
      flushed, wrote := FlushFlight(hs, io);
      r := if flushed then Resumes else Stops;
    } else if io.Arrives? {
      Receive(hs, io.ms);
      r := Resumes;
    } else if io == Retry {
      r := Again;
    } else {
      r := if hs.wait == ReadChangeCipherSpec && io == Changes then Resumes else Stops;
    }
    assert before.wire + [] == before.wire && before.arrived + [] == before.arrived;
    CarriedOne(hs.isServer, before, hs.channel, wrote, io);
  }

  /** Runs the handshake on, and notes what it waits for. */
  method Continue(hs: Hs, envs: Envs, ghost start: Channel, ghost wrote: seq<Item>, ghost ios: seq<Io>)
    returns (ghost last: Last)
    requires Valid(hs) && hs.offset == 0 && Carried(hs.isServer, start, hs.channel, wrote, ios)
    modifies hs
    ensures Inv(hs) && (hs.wait == Ok ==> Done(hs)) && Carried(hs.isServer, start, hs.channel, wrote, ios)
    ensures hs.tls13 || hs.wait == Ok || CameOut(hs, hs.wait, last, envs)
  {
    hide Valid, C.Early, CameOut, Carried;
    ghost var before := hs.channel;
    var w;
    w, last := DoHandshake(hs, envs);
    hs.wait := w;
    CarriedStill(hs.isServer, start, before, hs.channel, wrote, ios);
  }

  /** The waits that only the application can end. */
  predicate OfApplication(w: Wait) {
    w != Error && w != Ok && w != Flush && w != EarlyReturn && !Reads(w)
  }

  /** The transport has nothing for the handshake, or nothing that fits. */
  predicate Blocked(w: Wait, ios: seq<Io>, used: nat)
    requires used <= |ios|
  {
    && (w == Flush || Reads(w))
    && (|| used == |ios| || (used > 0 && Stopping(w, ios[used - 1]))
        || (ios[used].Arrives? && w != ReadMessage && w != ReadServerHello))
  }

  /** One call: resolves what the handshake waits for and runs it, until it is
      done, fails, waits for the application or finds nothing more on the
      transport. It ran `rounds` times, last from `last`, and `asked` is what
      the application is to do. */
  method RunHandshake(hs: Hs, ios: seq<Io>, envs: nat -> Envs)
    returns (ret: int, earlyReturn: bool, used: nat, wrote: seq<Item>,
             rounds: nat, ghost last: Last, ghost asked: Wait)
    requires Inv(hs)
    modifies hs
    ensures Inv(hs)
    ensures ret == 1 || ret == -1
    ensures ret == 1 && !earlyReturn ==> hs.wait == Ok && Done(hs)
    ensures ret == 1 && earlyReturn && !hs.tls13 ==> !hs.isServer && C.Early(hs)
    ensures hs.wait == Error ==> ret == -1
    ensures earlyReturn ==> ret == 1 && hs.wait == Ok
    ensures used <= |ios| && Carried(hs.isServer, old(hs.channel), hs.channel, wrote, ios[..used])
    ensures ret == -1 ==> hs.wait == Error || Blocked(hs.wait, ios, used) || (hs.wait == Ok && OfApplication(asked))
    ensures hs.wait == Error && old(hs.wait) != Error && !hs.tls13 ==>
              rounds > 0 && CameOut(hs, Error, last, envs(rounds - 1))
    ensures ret == -1 && hs.wait == Ok && !hs.tls13 ==>
              if rounds == 0 then asked == old(hs.wait) else CameOut(hs, asked, last, envs(rounds - 1))
  {
    hide Valid, Carried, C.Early, Done, CameOut, Stopping;
    earlyReturn, used, wrote := false, 0, [];
    rounds, last, asked := 0, *, hs.wait;
    NothingCarried(hs.isServer, hs.channel, ios);
    while true
      invariant Inv(hs) && used <= |ios| && !earlyReturn
      invariant Carried(hs.isServer, old(hs.channel), hs.channel, wrote, ios[..used])
      invariant asked == hs.wait && (rounds == 0 ==> hs.wait == old(hs.wait))
      invariant rounds > 0 && OfApplication(asked) && !hs.tls13 ==> CameOut(hs, asked, last, envs(rounds - 1))
      invariant rounds > 0 ==> hs.wait != Error
      decreases |ios| - used, hs.wait == Ok
    {
      ret := -1;
      ghost var before := hs.channel;
      if hs.wait == Error {
        return;
      } else if hs.wait == Flush || Reads(hs.wait) {
        if used == |ios| || (ios[used].Arrives? && hs.wait != ReadMessage && hs.wait != ReadServerHello) {
          return;
        }
        var r, more := Resolve(hs, ios[used]);
        CarriedMore(hs.isServer, old(hs.channel), before, hs.channel, wrote, more, ios, used);
        used, wrote := used + 1, wrote + more;
        if r == Again {
          continue;
        }
        if r == Stops {
          return;
        }
      } else if hs.wait == EarlyReturn {
        hs.wait := Ok;
        ret, earlyReturn := 1, true;
        return;
      } else if hs.wait != Ok {
        hs.wait := Ok;
        return;
      }
      last := Continue(hs, envs(rounds), old(hs.channel), wrote, ios[..used]);
      rounds, asked := rounds + 1, hs.wait;
      if hs.wait == Error {
        return;
      }
      if hs.wait == Ok {
        ret := 1;
        return;
      }
    }
  }

  // ----- what a completed handshake amounts to -----

  /** No handshake up to TLS 1.2 is ever complete unless the other side's
      Finished was checked against the transcript before it, and every
      certificate that came was verified; a client's certificate also has its
      CertificateVerify checked. */
  lemma CompleteIsSafe(hs: Hs)
    requires Valid(hs) && Done(hs) && !hs.tls13
    ensures hs.known.checkedOver.Some?
    ensures hs.known.checkedOver.value + [FinishedOf(!hs.isServer, hs.known.checkedOver.value)] <= hs.transcript
    ensures !hs.session && !hs.isServer && hs.known.cipher.Some? && hs.known.cipher.value.CertAuth() ==>
              SERVER_CERTIFICATE in hs.known.filled && hs.known.certsVerified
    ensures !hs.session && hs.isServer && hs.known.peerCerts > 0 ==>
              hs.known.certsVerified && SSide.SignatureChecked(hs.known.signatureOver, hs.transcript)
  {
    if hs.isServer {
      S.DoneMeans(hs);
    } else {
      C.DoneMeans(hs);
    }
  }

  /** A new connection may start. */
  lemma Fresh(hs: Hs)
    requires hs.Consistent() && hs.transcript == [] && hs.known == NOTHING_KNOWN && !hs.tls13
    requires hs.clientState == StartConnect && hs.serverState == StartAccept && hs.wait == Ok && hs.offset == 0
    requires hs.isServer ==> !hs.session
    ensures Inv(hs)
  {
    if hs.isServer {
      S.FreshIsValid(hs);
    } else {
      C.FreshIsValid(hs);
    }
  }
}

/** A client and a server joined by in-order channels. */
module TlsPair {
  import opened Prelude
  import opened TlsTranscript
  import opened TlsScript
  import opened TlsCore
  import opened TlsRun
  import C = TlsClient
  import S = TlsServer

  /** Neither side failed, went to TLS 1.3 or saw a HelloVerifyRequest; and what
      came in at each side is the start of what the other one wrote out. */
  ghost predicate Joined(c: Hs, s: Hs)
    reads c, s
  {
    && !c.isServer && s.isServer && Valid(c) && Valid(s) && !c.tls13 && !s.tls13
    && c.channel.sentBefore == 0 && s.channel.sentBefore == 0
    && c.channel.receivedBefore == 0 && s.channel.receivedBefore == 0
    && c.channel.arrived <= Messages(s.channel.wire) && s.channel.arrived <= Messages(c.channel.wire)
  }

  lemma {:induction false} MessagesPrefix(a: seq<Item>, b: seq<Item>)
    ensures Messages(a) <= Messages(a + b)
    decreases |b|
  {
    if b == [] {
      assert a + b == a;
    } else {
      var before := b[..|b| - 1];
      MessagesPrefix(a, before);
      assert a + b == (a + before) + [b[|b| - 1]];
      MessagesAppend(a + before, b[|b| - 1]);
    }
  }

  lemma ValidIsConsistent(hs: Hs)
    requires Valid(hs) && !hs.tls13
    ensures hs.Consistent()
  {
  }

  /** What one side had from the inbox, and what is still there, is the start of
      what the other side said. */
  lemma OneWay(from: Hs, to: Hs)
    requires from.Consistent() && to.Consistent() && from.isServer != to.isServer
    requires from.channel.sentBefore == 0 && to.channel.receivedBefore == 0
    requires to.channel.arrived <= Messages(from.channel.wire)
    ensures From(from.isServer, to.transcript) + to.inbox <= From(from.isServer, from.transcript)
  {
    hide From, Honest, Messages;
    MessagesPrefix(from.channel.wire, from.flight);
    assert to.channel.arrived[0..] == to.channel.arrived;
  }

  lemma JoinedInOrder(c: Hs, s: Hs)
    requires Joined(c, s)
    ensures InOrder(c.transcript, s.transcript)
    ensures From(true, c.transcript) + c.inbox <= From(true, s.transcript)
    ensures From(false, s.transcript) + s.inbox <= From(false, c.transcript)
  {
    hide From, Valid;
    ValidIsConsistent(c);
    ValidIsConsistent(s);
    OneWay(s, c);
    OneWay(c, s);
  }

  lemma SaidHonestly(hs: Hs)
    requires Valid(hs) && !hs.tls13
    ensures Honest(hs.isServer, hs.transcript)
  {
  }

  /** When the client is to check the server's Finished: the server's transcript
      was the same when it made it, and the check succeeds. */
  lemma ClientsCheckSucceeds(c: Hs, s: Hs)
    requires Joined(c, s) && ServersTurn(c.transcript) && c.inbox != [] && c.inbox[0].kind == Finished
    ensures |c.transcript| < |s.transcript| && s.transcript[..|c.transcript|] == c.transcript
    ensures c.inbox[0] == FinishedOf(true, c.transcript)
  {
    hide From, ServersTurn, Honest, Valid;
    JoinedInOrder(c, s);
    SaidHonestly(s);
    NextInOrder(true, c.transcript, s.transcript, c.inbox);
    FinishedAgrees(true, c.transcript, s.transcript, c.inbox[0]);
  }

  lemma ServersCheckSucceeds(c: Hs, s: Hs)
    requires Joined(c, s) && !ServersTurn(s.transcript) && s.inbox != [] && s.inbox[0].kind == Finished
    ensures |s.transcript| < |c.transcript| && c.transcript[..|s.transcript|] == s.transcript
    ensures s.inbox[0] == FinishedOf(false, s.transcript)
  {
    hide From, ServersTurn, Honest, Valid;
    JoinedInOrder(c, s);
    SaidHonestly(c);
    NextInOrder(false, s.transcript, c.transcript, s.inbox);
    FinishedAgrees(false, s.transcript, c.transcript, s.inbox[0]);
  }

  /** With the next message read, the channel is still in order. */
  lemma NextInOrder(byServer: bool, reader: seq<Message>, writer: seq<Message>, inbox: seq<Message>)
    requires inbox != [] && ServersTurn(reader) == byServer
    requires From(byServer, reader) + inbox <= From(byServer, writer)
    requires From(!byServer, writer) <= From(!byServer, reader)
    ensures if byServer then InOrder(reader + [inbox[0]], writer) else InOrder(writer, reader + [inbox[0]])
  {
    hide From, ServersTurn;
    TurnAppend(reader, inbox[0]);
    assert From(byServer, reader) + [inbox[0]] <= From(byServer, reader) + inbox;
  }

  /** Both sides derive the master secret over the same messages. */
  lemma SameMasterSecret(c: Hs, s: Hs)
    requires Joined(c, s) && c.known.masterOver.Some? && s.known.masterOver.Some?
    ensures c.known.masterOver == s.known.masterOver
  {
    hide From, KeyExchangePrefix;
    JoinedInOrder(c, s);
    MasterIsPrefix(c);
    MasterIsPrefix(s);
    MasterSecretAgrees(c.transcript, s.transcript);
  }

  lemma MasterIsPrefix(hs: Hs)
    requires Valid(hs) && !hs.tls13
    ensures hs.known.masterOver == KeyExchangePrefix(hs.transcript)
  {
  }

  // ----- both done -----

  function Finishes(kinds: seq<Kind>): nat {
    if kinds == [] then 0
    else Finishes(kinds[..|kinds| - 1]) + (if kinds[|kinds| - 1] == Finished then 1 else 0)
  }

  lemma {:induction false} FinishesOfScript(resumed: bool, n: nat, filled: set<nat>)
    requires n <= if resumed then R_CLIENT_FINISHED else SERVER_FINISHED
    ensures Finishes(Upto(resumed, n, filled))
         == (if n >= (if resumed then R_SERVER_FINISHED else CLIENT_FINISHED) then 1 else 0)
          + (if n >= (if resumed then R_CLIENT_FINISHED else SERVER_FINISHED) then 1 else 0)
    decreases n
  {
    if n > 0 {
      FinishesOfScript(resumed, n - 1, filled);
      var before := Upto(resumed, n - 1, filled);
      if Optional(resumed, n) && n !in filled {
        assert before + [] == before;
      } else {
        assert (before + [KindAt(resumed, n)])[..|before|] == before;
      }
    }
  }

  /** A transcript with one more message has a second Finished too many. */
  lemma {:induction false} FinishesGrow(t: seq<Message>, u: seq<Message>)
    requires t <= u
    ensures Finishes(Kinds(t)) <= Finishes(Kinds(u))
    ensures t != u && u[|u| - 1].kind == Finished ==> Finishes(Kinds(t)) < Finishes(Kinds(u))
    decreases |u|
  {
    if t != u {
      var before := u[..|u| - 1];
      FinishesGrow(t, before);
      var kinds := Kinds(before) + [u[|u| - 1].kind];
      assert kinds[..|kinds| - 1] == Kinds(before);
    } else {
      assert t == u;
    }
  }

  function LastPlace(resumed: bool): nat {
    if resumed then R_CLIENT_FINISHED else SERVER_FINISHED
  }

  lemma DoneScript(hs: Hs)
    requires Valid(hs) && Done(hs) && !hs.tls13
    ensures Kinds(hs.transcript) == Upto(hs.session, LastPlace(hs.session), hs.known.filled)
  {
    if hs.isServer {
      S.DoneMeans(hs);
    } else {
      C.DoneMeans(hs);
    }
  }

  lemma LastIsFinished(resumed: bool, filled: set<nat>)
    ensures Upto(resumed, LastPlace(resumed), filled) == Upto(resumed, LastPlace(resumed) - 1, filled) + [Finished]
  {
  }

  lemma DoneKinds(hs: Hs)
    requires Valid(hs) && Done(hs) && !hs.tls13
    ensures Finishes(Kinds(hs.transcript)) == 2
    ensures hs.transcript != [] && hs.transcript[|hs.transcript| - 1].kind == Finished
  {
    hide Valid, Done, Kinds, Upto, Finishes;
    DoneScript(hs);
    FinishesOfScript(hs.session, LastPlace(hs.session), hs.known.filled);
    LastIsFinished(hs.session, hs.known.filled);
    LastKind(hs.transcript, Upto(hs.session, LastPlace(hs.session) - 1, hs.known.filled));
  }

  lemma LastKind(t: seq<Message>, before: seq<Kind>)
    requires Kinds(t) == before + [Finished]
    ensures t != [] && t[|t| - 1].kind == Finished
  {
    assert Kinds(t)[|Kinds(t)| - 1] == Finished;
  }

  /** Two completed sides have exactly the same transcript. */
  lemma SameTranscript(c: Hs, s: Hs)
    requires Joined(c, s) && Done(c) && Done(s)
    ensures c.transcript == s.transcript
  {
    hide From, Kinds, Finishes, Valid, Done;
    JoinedInOrder(c, s);
    Comparable(c.transcript, s.transcript);
    DoneKinds(c);
    DoneKinds(s);
    if c.transcript <= s.transcript {
      FinishesGrow(c.transcript, s.transcript);
    } else {
      FinishesGrow(s.transcript, c.transcript);
    }
  }

  /** Even over a hostile channel: if the Finished that was accepted is one that
      the other side sent, their transcripts agree up to it. */
  lemma AcceptedMeansAgreed(mine: Hs, other: Hs, i: nat)
    requires Valid(mine) && Done(mine) && !mine.tls13 && Valid(other) && !other.tls13
    requires mine.isServer != other.isServer && mine.known.checkedOver.Some?
    requires i < |other.transcript| && ServersTurn(other.transcript[..i]) == other.isServer
    requires other.transcript[i] == FinishedOf(other.isServer, mine.known.checkedOver.value)
    ensures other.transcript[..i] == mine.known.checkedOver.value <= mine.transcript
  {
    hide ServersTurn, Valid;
    SaidHonestly(other);
    HonestAt(other.isServer, other.transcript, i);
    CompleteIsSafe(mine);
  }

  // ----- joint runs -----

  /** A server never restarts, and a client only for a HelloVerifyRequest. */
  ghost predicate Counted(hs: Hs)
    reads hs
  {
    hs.isServer || NoVerifyRequest(hs.channel.arrived) ==> hs.channel.sentBefore == 0 && hs.channel.receivedBefore == 0
  }

  /** What `from` wrote out is what `to` took in, and then what is on its way. */
  ghost predicate InTransit(from: Hs, to: Hs, way: seq<Message>)
    reads from, to
  {
    Messages(from.channel.wire) == to.channel.arrived + way
  }

  /** A client and a server between calls, with the messages on their way. */
  ghost predicate Linked(c: Hs, s: Hs, toClient: seq<Message>, toServer: seq<Message>)
    reads c, s
  {
    && !c.isServer && s.isServer && Inv(c) && Inv(s) && Counted(c) && Counted(s)
    && InTransit(s, c, toClient) && InTransit(c, s, toServer)
  }

  lemma {:induction false} UptoKinds(resumed: bool, n: nat, filled: set<nat>)
    ensures HelloVerifyRequest !in Upto(resumed, n, filled)
  {
    if n > 0 {
      UptoKinds(resumed, n - 1, filled);
    }
  }

  lemma {:induction false} FromKinds(byServer: bool, t: seq<Message>)
    ensures forall m :: m in From(byServer, t) ==> m.kind in Kinds(t)
  {
    if t != [] {
      FromKinds(byServer, t[..|t| - 1]);
      KindsAppend(t[..|t| - 1], t[|t| - 1]);
      assert t[..|t| - 1] + [t[|t| - 1]] == t;
    }
  }

  lemma ServersKinds(s: Hs)
    requires s.isServer && Valid(s) && !s.tls13
    ensures exists n: nat :: Kinds(s.transcript) == Upto(s.session, n, s.known.filled)
  {
  }

  /** This server never asks a client to start over. */
  lemma ServerNeverVerifies(s: Hs)
    requires s.isServer && Valid(s) && !s.tls13 && Counted(s)
    ensures NoVerifyRequest(Messages(s.channel.wire))
  {
    hide Valid, From, Kinds, Upto, Messages, Honest;
    ValidIsConsistent(s);
    ServersKinds(s);
    var n: nat :| Kinds(s.transcript) == Upto(s.session, n, s.known.filled);
    UptoKinds(s.session, n, s.known.filled);
    FromKinds(true, s.transcript);
    MessagesPrefix(s.channel.wire, s.flight);
    var out := Messages(s.channel.wire + s.flight);
    assert out[0..] == out;
    forall m | m in Messages(s.channel.wire)
      ensures m.kind != HelloVerifyRequest
    {
      assert m in out;
    }
  }

  /** While neither side failed or went to TLS 1.3 they are joined, so that all
      of the above holds between any two calls. */
  lemma LinkedIsJoined(c: Hs, s: Hs, toClient: seq<Message>, toServer: seq<Message>)
    requires Linked(c, s, toClient, toServer) && c.wait != Error && s.wait != Error && !c.tls13 && !s.tls13
    ensures Joined(c, s)
  {
    hide Valid, Messages;
    ServerNeverVerifies(s);
    forall m | m in c.channel.arrived
      ensures m.kind != HelloVerifyRequest
    {
      assert m in Messages(s.channel.wire);
    }
  }

  /** What the network does for one side in one call: brings the next messages
      on their way, or something else happens on the transport. */
  datatype Plan = Bring(count: nat) | Else(io: Io)

  function Ios(plan: seq<Plan>, way: seq<Message>): (ios: seq<Io>)
    ensures |ios| == |plan| && Brought(ios) <= way
  {
    if plan == [] then []
    else
      var before := Ios(plan[..|plan| - 1], way);
      var done := |Brought(before)|;
      var next :=
        match plan[|plan| - 1]
        case Bring(count) => Arrives(way[done..Min(done + count, |way|)])
        case Else(io) => if io.Arrives? then Retry else io;
      assert (before + [next])[..|before|] == before;
      before + [next]
  }

  lemma {:induction false} IosPrefix(plan: seq<Plan>, way: seq<Message>, used: nat)
    requires used <= |plan|
    ensures Brought(Ios(plan, way)[..used]) <= way
  {
    var ios := Ios(plan, way);
    if used == |plan| {
      assert ios[..used] == ios;
    } else {
      var before := plan[..|plan| - 1];
      IosPrefix(before, way, used);
      assert Ios(before, way)[..used] == ios[..used];
    }
  }

  lemma {:induction false} MessagesThen(a: seq<Item>, b: seq<Item>)
    ensures Messages(a + b) == Messages(a) + Messages(b)
    decreases |b|
  {
    if b == [] {
      assert a + b == a;
    } else {
      var before := b[..|b| - 1];
      MessagesThen(a, before);
      assert a + b == (a + before) + [b[|b| - 1]];
      MessagesAppend(a + before, b[|b| - 1]);
    }
  }

  /** One call of one side. `left` are the messages still on their way to it,
      `said` those it sent on theirs. */
  method Call(me: Hs, other: Hs, plan: seq<Plan>, envs: nat -> Envs, way: seq<Message>)
    returns (left: seq<Message>, said: seq<Message>, rounds: nat, ghost last: Last)
    requires me != other && Inv(me) && Counted(me) && InTransit(other, me, way)
    modifies me
    ensures Inv(me) && Counted(me) && InTransit(other, me, left)
    ensures Messages(me.channel.wire) == old(Messages(me.channel.wire)) + said
    ensures me.channel.arrived + left == old(me.channel.arrived) + way
    ensures me.wait == Error && old(me.wait) != Error && !me.tls13 ==>
              rounds > 0 && CameOut(me, Error, last, envs(rounds - 1))
  {
    hide Inv, Messages, Brought, CameOut;
    var ios := Ios(plan, way);
    ghost var before := me.channel;
    var ret, early, used, wrote;
    ghost var asked;
    ret, early, used, wrote, rounds, last, asked := RunHandshake(me, ios, envs);
    IosPrefix(plan, way, used);
    MessagesThen(before.wire, wrote);
    var brought := Brought(ios[..used]);
    assert way == brought + way[|brought|..];
    left, said := way[|brought|..], Messages(wrote);
    StillCounted(me.isServer, before, me.channel, brought);
  }

  lemma StillCounted(isServer: bool, before: Channel, after: Channel, brought: seq<Message>)
    requires after.arrived == before.arrived + brought
    ensures NoVerifyRequest(after.arrived) ==> NoVerifyRequest(before.arrived)
  {
  }

  /** A call of one side, what the network does for it and what it finds. */
  datatype Turn = Turn(byServer: bool, plan: seq<Plan>, envs: nat -> Envs)

  /** Both sides called in any order, over channels that may be slow, fail or
      stop, but keep the order: they stay linked. */
  method JointRun(c: Hs, s: Hs, turns: seq<Turn>)
    returns (toClient: seq<Message>, toServer: seq<Message>)
    requires Linked(c, s, [], [])
    modifies c, s
    ensures Linked(c, s, toClient, toServer)
  {
    hide Inv, Counted, Messages;
    toClient, toServer := [], [];
    for i := 0 to |turns|
      invariant Linked(c, s, toClient, toServer)
    {
      var Turn(byServer, plan, envs) := turns[i];
      var said, rounds;
      ghost var last;
      if byServer {
        toServer, said, rounds, last := Call(s, c, plan, envs, toServer);
        toClient := toClient + said;
      } else {
        toClient, said, rounds, last := Call(c, s, plan, envs, toClient);
        toServer := toServer + said;
      }
    }
  }

  /** Two new connections are linked. */
  lemma FreshAreLinked(c: Hs, s: Hs)
    requires !c.isServer && s.isServer && Inv(c) && Inv(s)
    requires c.channel == NOTHING_SAID && s.channel == NOTHING_SAID
    ensures Linked(c, s, [], [])
  {
  }
}
