/** The two machines fit: what one of them says next is never out of place for
    the other, once the client has understood the ServerHello. */
module TlsMatch {
  import opened Prelude
  import opened TlsTranscript
  import opened TlsScript
  import opened TlsCore
  import CSide = TlsClientSide
  import SSide = TlsServerSide
  import C = TlsClient
  import S = TlsServer
  import R = TlsRun
  import P = TlsPair

  // ----- one script, two choices of its optional places -----

  predicate FilledAt(resumed: bool, n: nat, filled: set<nat>) {
    n in filled || !Optional(resumed, n)
  }

  function Places(resumed: bool): nat {
    if resumed then R_CLIENT_FINISHED else SERVER_FINISHED
  }

  /** The last place up to p that is filled. */
  function LastOf(resumed: bool, p: nat, filled: set<nat>): (l: nat)
    ensures l <= p && forall j :: l < j <= p ==> !FilledAt(resumed, j, filled)
  {
    if p == 0 then 0
    else if FilledAt(resumed, p, filled) then p
    else LastOf(resumed, p - 1, filled)
  }

  /** Between two places of one kind, the first of them included, is one that
      is never empty. */
  lemma KindsRecur(resumed: bool, a: nat, b: nat) returns (j: nat)
    requires 0 < a < b <= Places(resumed) && KindAt(resumed, a) == KindAt(resumed, b)
    ensures a <= j < b && !Optional(resumed, j)
  {
    j := if resumed then R_SERVER_FINISHED else if a == SERVER_CERTIFICATE then HELLO_DONE else CLIENT_FINISHED;
  }

  lemma {:induction false} EmptyBetween(resumed: bool, p: nat, q: nat, filled: set<nat>)
    requires p <= q && forall j :: p < j <= q ==> !FilledAt(resumed, j, filled)
    ensures Upto(resumed, q, filled) == Upto(resumed, p, filled)
    decreases q
  {
    if p < q {
      EmptyBetween(resumed, p, q - 1, filled);
      assert !FilledAt(resumed, q, filled);
      Skip(resumed, q, filled);
    }
  }

  lemma {:induction false} NoLonger(resumed: bool, p: nat, q: nat, filled: set<nat>)
    requires p <= q
    ensures |Upto(resumed, p, filled)| <= |Upto(resumed, q, filled)|
    ensures |Upto(resumed, p, filled)| == |Upto(resumed, q, filled)| ==>
              forall j :: p < j <= q ==> !FilledAt(resumed, j, filled)
    decreases q
  {
    if p < q {
      NoLonger(resumed, p, q - 1, filled);
    }
  }

  /** The kind after those up to p is that of the next filled place. */
  lemma {:induction false} NextFilled(resumed: bool, p: nat, q: nat, filled: set<nat>, k: Kind) returns (n: nat)
    requires p <= q && Upto(resumed, p, filled) + [k] <= Upto(resumed, q, filled)
    ensures p < n <= q && FilledAt(resumed, n, filled) && KindAt(resumed, n) == k
    ensures forall j :: p < j < n ==> !FilledAt(resumed, j, filled)
    decreases q
  {
    var short, before := Upto(resumed, p, filled), Upto(resumed, q - 1, filled);
    NoLonger(resumed, p, q - 1, filled);
    assert (short + [k])[|short|] == Upto(resumed, q, filled)[|short|];
    if FilledAt(resumed, q, filled) && |before| == |short| {
      n := q;
    } else {
      n := NextFilled(resumed, p, q - 1, filled, k);
    }
  }

  /** If one side is at place p of the script, and the other one's goes on from
      there with k, then both have filled the same places so far, and k is the
      kind of the next place that the other one has filled. */
  lemma {:induction false} NextPlace(
      resumed: bool, p: nat, mine: set<nat>, q: nat, theirs: set<nat>, k: Kind) returns (n: nat)
    requires q <= Places(resumed) && Upto(resumed, p, mine) + [k] <= Upto(resumed, q, theirs)
    ensures LastOf(resumed, p, mine) < n <= q && FilledAt(resumed, n, theirs) && KindAt(resumed, n) == k
    ensures forall j :: LastOf(resumed, p, mine) < j < n ==> !FilledAt(resumed, j, theirs)
    ensures forall j :: 0 < j <= LastOf(resumed, p, mine) ==>
              (FilledAt(resumed, j, mine) <==> FilledAt(resumed, j, theirs))
    ensures Upto(resumed, p, mine) == Upto(resumed, LastOf(resumed, p, mine), theirs)
    decreases p
  {
    if p == 0 {
      n := NextFilled(resumed, 0, q, theirs, k);
    } else if !FilledAt(resumed, p, mine) {
      n := NextPlace(resumed, p - 1, mine, q, theirs, k);
    } else {
      var kind, last := KindAt(resumed, p), LastOf(resumed, p - 1, mine);
      assert Upto(resumed, p, mine) == Upto(resumed, p - 1, mine) + [kind];
      var m := NextPlace(resumed, p - 1, mine, q, theirs, kind);
      if m < p {
        var j := KindsRecur(resumed, m, p);
        assert FilledAt(resumed, j, mine);
      } else if p < m {
        var j := KindsRecur(resumed, p, m);
        assert FilledAt(resumed, j, theirs);
      }
      EmptyBetween(resumed, last, p - 1, theirs);
      n := NextFilled(resumed, p, q, theirs, k);
    }
  }

  lemma {:induction false} KindsPrefix(t: seq<Message>, u: seq<Message>)
    requires t <= u
    ensures Kinds(t) <= Kinds(u)
    decreases |u|
  {
    if |t| == |u| {
      assert t == u;
    } else {
      KindsPrefix(t, u[..|u| - 1]);
    }
  }

  // ----- what the two sides have in common -----

  /** The library's ciphers: pre-shared keys do not go with RSA key exchange. */
  predicate Known(c: Suite) {
    c.auth == APsk ==> c.mkey != KRsa
  }

  /** The client expects a ticket, or has taken it. */
  predicate TicketToCome(x: C.View) {
    var v := x.side;
    if CSide.Progress(v.s, v.resumed) < CSide.TicketPlace(v.resumed) then x.ticket
    else CSide.TicketPlace(v.resumed) in v.f.filled
  }

  /** Once both have the ServerHello, the client read out of it and its
      extensions what the server meant: the session, the cipher, the protocols,
      whether a status may come and whether a ticket will. And the server
      counts as a certificate what the client signs for. */
  predicate Understood(x: C.View, y: S.View) {
    var v, w := x.side, y.side;
    && !x.early
    && (|v.t| >= 2 && |w.t| >= 2 ==>
          && v.resumed == w.resumed && v.f.cipher == w.f.cipher && (v.f.cipher.Some? ==> Known(v.f.cipher.value))
          && v.f.nextProtoSeen == w.f.nextProtoSeen && v.f.channelIdValid == w.f.channelIdValid)
    && (!w.resumed && STATUS in w.f.filled ==> x.status)
    && (SSide.Progress(w.s, w.resumed) >= CSide.ServerFinishedPlace(w.resumed) ==>
          (TicketToCome(x) <==> CSide.TicketPlace(w.resumed) in w.f.filled))
    && (!w.resumed && CSide.Progress(v.s, false) >= VERIFY && SSide.Progress(w.s, false) >= CLIENT_CERTIFICATE ==>
          (VERIFY in v.f.filled <==> w.f.peerCerts > 0))
  }

  // ----- the client, reading -----

  /** Where the server's next message stands in the script, seen from both sides. */
  predicate Follows(resumed: bool, p: nat, mine: set<nat>, q: nat, theirs: set<nat>, n: nat, k: Kind) {
    && LastOf(resumed, p, mine) < n <= q && FilledAt(resumed, n, theirs) && KindAt(resumed, n) == k
    && (forall j :: LastOf(resumed, p, mine) < j < n ==> !FilledAt(resumed, j, theirs))
    && (forall j :: 0 < j <= LastOf(resumed, p, mine) ==>
          (FilledAt(resumed, j, mine) <==> FilledAt(resumed, j, theirs)))
  }

  lemma {:induction false} ShortKinds(t: seq<Message>)
    ensures |Kinds(t)| == |t|
  {
    if t != [] {
      ShortKinds(t[..|t| - 1]);
    }
  }

  lemma {:induction false} AtLeastTheHellos(resumed: bool, p: nat, filled: set<nat>)
    ensures |Upto(resumed, p, filled)| >= Min(p, SERVER_HELLO)
    decreases p
  {
    if p > 0 {
      AtLeastTheHellos(resumed, p - 1, filled);
    }
  }

  lemma WithinPlaces(v: CSide.Side, w: SSide.Side)
    requires CSide.Settled(v) && SSide.Settled(w)
    ensures CSide.Progress(v.s, v.resumed) <= Places(v.resumed) && SSide.Progress(w.s, w.resumed) <= Places(w.resumed)
  {
    hide Kinds, Upto, ServersTurn, KeyExchangePrefix, CSide.PeerChecked, SSide.PeerChecked, SSide.SignatureChecked;
  }

  lemma ServerGoesOn(v: CSide.Side, w: SSide.Side, m: Message) returns (n: nat)
    requires CSide.Settled(v) && SSide.Settled(w) && v.t + [m] <= w.t
    requires v.resumed == w.resumed || CSide.Progress(v.s, v.resumed) <= CLIENT_HELLO
    ensures Follows(w.resumed, CSide.Progress(v.s, v.resumed), v.f.filled, SSide.Progress(w.s, w.resumed), w.f.filled,
                    n, m.kind)
  {
    hide Kinds, Upto, ServersTurn, KeyExchangePrefix, CSide.Established, CSide.Resuming, CSide.PeerChecked;
    hide SSide.Established, SSide.Resuming, SSide.PeerChecked, SSide.SignatureChecked;
    WithinPlaces(v, w);
    KindsAppend(v.t, m);
    KindsPrefix(v.t + [m], w.t);
    var p := CSide.Progress(v.s, v.resumed);
    if v.resumed != w.resumed {
      HellosFirst(v.resumed, w.resumed, p, v.f.filled);
    }
    n := NextPlace(w.resumed, p, v.f.filled, SSide.Progress(w.s, w.resumed), w.f.filled, m.kind);
  }

  lemma ClientGoesOn(v: CSide.Side, w: SSide.Side, m: Message) returns (n: nat)
    requires CSide.Settled(v) && SSide.Settled(w) && w.t + [m] <= v.t
    requires v.resumed == w.resumed || SSide.Progress(w.s, w.resumed) <= CLIENT_HELLO
    ensures Follows(v.resumed, SSide.Progress(w.s, w.resumed), w.f.filled, CSide.Progress(v.s, v.resumed), v.f.filled,
                    n, m.kind)
  {
    hide Kinds, Upto, ServersTurn, KeyExchangePrefix, CSide.Established, CSide.Resuming, CSide.PeerChecked;
    hide SSide.Established, SSide.Resuming, SSide.PeerChecked, SSide.SignatureChecked;
    WithinPlaces(v, w);
    KindsAppend(w.t, m);
    KindsPrefix(w.t + [m], v.t);
    var p := SSide.Progress(w.s, w.resumed);
    if v.resumed != w.resumed {
      HellosFirst(v.resumed, w.resumed, p, w.f.filled);
    }
    n := NextPlace(v.resumed, p, w.f.filled, CSide.Progress(v.s, v.resumed), v.f.filled, m.kind);
  }

  /** What the client gets to read in its first states. */
  lemma HelloComes(v: CSide.Side, w: SSide.Side, n: nat, k: Kind)
    requires v.s == ReadServerHelloState
    requires Follows(w.resumed, CLIENT_HELLO, v.f.filled, SSide.Progress(w.s, w.resumed), w.f.filled, n, k)
    ensures k == ServerHello
  {
    assert FilledAt(w.resumed, SERVER_HELLO, w.f.filled) && FilledAt(w.resumed, CLIENT_HELLO, v.f.filled);
  }

  /** The next place of the server's first flight is n, of kind k, and that suits x. */
  predicate SuitsFirstFlight(x: C.View, n: nat, k: Kind) {
    var v := x.side;
    && v.f.cipher.Some? && SERVER_HELLO < n <= HELLO_DONE && KindAt(false, n) == k
    && var c := v.f.cipher.value;
       && (n == SERVER_CERTIFICATE ==> v.s == ReadServerCertificate && c.CertAuth())
       && (v.s == ReadServerCertificate && c.CertAuth() ==> n == SERVER_CERTIFICATE)
       && (n == STATUS ==> x.status && STATUS !in v.f.filled)
       && (n == SERVER_KEY_EXCHANGE ==> c.mkey != KRsa && SERVER_KEY_EXCHANGE !in v.f.filled)
       && (n > SERVER_KEY_EXCHANGE && CSide.Progress(v.s, false) == STATUS ==> c.mkey != KEcdhe)
       && (n == CERTIFICATE_REQUEST ==> c.CertAuth() && CERTIFICATE_REQUEST !in v.f.filled)
       && (n >= STATUS && SERVER_KEY_EXCHANGE in v.f.filled ==> n > SERVER_KEY_EXCHANGE)
       && (CERTIFICATE_REQUEST in v.f.filled ==> n == HELLO_DONE)
  }

  /** The places of the server's first flight, as both sides know them. */
  lemma FirstFlight(x: C.View, y: S.View, n: nat, k: Kind)
    requires CSide.Settled(x.side) && SSide.Settled(y.side) && Understood(x, y) && !y.side.resumed
    requires CSide.FullOnly(x.side.s) && |x.side.t| >= 2 && |y.side.t| >= 2
    requires Follows(false, CSide.Progress(x.side.s, false), x.side.f.filled,
                     SSide.Progress(y.side.s, false), y.side.f.filled, n, k)
    requires CSide.Progress(x.side.s, false) < HELLO_DONE
    ensures SuitsFirstFlight(x, n, k)
  {
    hide Kinds, Upto, ServersTurn, KeyExchangePrefix, CSide.PeerChecked, SSide.PeerChecked, SSide.SignatureChecked;
    hide CSide.Resuming, SSide.Resuming;
    var mine, theirs := x.side.f.filled, y.side.f.filled;
    assert FilledAt(false, HELLO_DONE, theirs) && FilledAt(false, SERVER_HELLO, mine);
    assert FilledAt(false, SERVER_CERTIFICATE, mine) <==> SERVER_CERTIFICATE in mine;
    assert FilledAt(false, SERVER_CERTIFICATE, theirs) <==> SERVER_CERTIFICATE in theirs;
    assert FilledAt(false, STATUS, mine) <==> STATUS in mine;
    assert FilledAt(false, SERVER_KEY_EXCHANGE, mine) <==> SERVER_KEY_EXCHANGE in mine;
    assert FilledAt(false, SERVER_KEY_EXCHANGE, theirs) <==> SERVER_KEY_EXCHANGE in theirs;
    assert FilledAt(false, CERTIFICATE_REQUEST, mine) <==> CERTIFICATE_REQUEST in mine;
    assert SSide.Progress(y.side.s, false) != SERVER_CERTIFICATE;
  }

  /** The ticket and the server's Finished, likewise. */
  lemma LastComes(x: C.View, y: S.View, n: nat, k: Kind)
    requires CSide.Settled(x.side) && SSide.Settled(y.side) && Understood(x, y) && x.side.resumed == y.side.resumed
    requires x.side.s == ReadSessionTicket || x.side.s == ReadServerFinished
    requires Follows(y.side.resumed, CSide.Progress(x.side.s, x.side.resumed), x.side.f.filled,
                     SSide.Progress(y.side.s, y.side.resumed), y.side.f.filled, n, k)
    ensures k == if x.side.s == ReadSessionTicket && x.ticket then NewSessionTicket
                 else if x.side.s == ReadServerFinished then Finished
                 else k
  {
    hide Kinds, Upto, ServersTurn, KeyExchangePrefix, CSide.PeerChecked, SSide.PeerChecked, SSide.SignatureChecked;
    hide CSide.Resuming, CSide.Established, SSide.Resuming, SSide.Established;
    var r, mine, theirs := x.side.resumed, x.side.f.filled, y.side.f.filled;
    var ticket, last := CSide.TicketPlace(r), CSide.ServerFinishedPlace(r);
    assert FilledAt(r, ticket - 1, mine) && FilledAt(r, last, theirs);
    assert FilledAt(r, ticket, mine) <==> ticket in mine;
    assert FilledAt(r, ticket, theirs) <==> ticket in theirs;
  }

  // ----- the theorem for the client -----

  /** Whatever the server says next, the client does not refuse it. */
  lemma ClientNeverRefuses(x: C.View, y: S.View, restarted: bool)
    requires CSide.Settled(x.side) && SSide.Settled(y.side) && Understood(x, y)
    requires C.NonePassed(x.side, x.dtls, restarted, x.status, x.inbox)
    requires x.inbox != [] && ServersTurn(x.side.t) ==>
               x.side.t + [x.inbox[0]] <= y.side.t && Honest(true, y.side.t)
    ensures !C.Refuses(x)
  {
    hide CSide.Settled, SSide.Settled, Understood, Follows, C.NonePassed, C.Refuses, SuitsFirstFlight, ServersTurn;
    if x.inbox != [] && Reading(x.side.s) {
      var m := x.inbox[0];
      ServersTurnHere(x.side);
      BothPastHello(x, y, m);
      var n := ServerGoesOn(x.side, y.side, m);
      TruthfulNext(x.side, y.side, m);
      if CSide.FullOnly(x.side.s) {
        FirstFlight(x, y, n, m.kind);
        FirstFlightAccepted(x, restarted, n);
      } else if x.side.s == ReadServerHelloState {
        HelloComes(x.side, y.side, n, m.kind);
        HelloAccepted(x, y);
      } else {
        LastComes(x, y, n, m.kind);
        LastAccepted(x);
      }
    } else {
      NotReading(x);
    }
  }

  /** The client's states that may refuse a message. */
  predicate Reading(s: ClientState) {
    || s == ReadServerHelloState || s == ReadServerCertificate || s == ReadServerKeyExchange
    || s == ReadCertificateRequest || s == ReadServerHelloDone || s == ReadSessionTicket || s == ReadServerFinished
  }

  lemma ServersTurnHere(v: CSide.Side)
    requires CSide.Settled(v) && Reading(v.s)
    ensures ServersTurn(v.t)
  {
  }

  lemma NotReading(x: C.View)
    requires x.inbox == [] || !Reading(x.side.s)
    ensures !C.Refuses(x)
  {
  }

  lemma BothPastHello(x: C.View, y: S.View, m: Message)
    requires CSide.Settled(x.side) && SSide.Settled(y.side) && Understood(x, y) && Reading(x.side.s)
    requires x.side.t + [m] <= y.side.t
    ensures x.side.s == ReadServerHelloState ==> CSide.Progress(x.side.s, x.side.resumed) <= CLIENT_HELLO
    ensures x.side.s != ReadServerHelloState ==>
              |x.side.t| >= 2 && |y.side.t| >= 2 && x.side.resumed == y.side.resumed
    ensures CSide.FullOnly(x.side.s) ==> !x.side.resumed && CSide.Progress(x.side.s, false) < HELLO_DONE
  {
    hide Kinds, Upto, ServersTurn, KeyExchangePrefix, CSide.PeerChecked, SSide.PeerChecked, SSide.SignatureChecked;
    ShortKinds(x.side.t);
    AtLeastTheHellos(x.side.resumed, CSide.Progress(x.side.s, x.side.resumed), x.side.f.filled);
  }

  lemma TruthfulNext(v: CSide.Side, w: SSide.Side, m: Message)
    requires v.t + [m] <= w.t && Honest(true, w.t) && ServersTurn(v.t)
    ensures Truthful(true, v.t, m)
  {
    hide Honest, ServersTurn, Truthful;
    assert w.t[..|v.t|] == v.t && w.t[|v.t|] == m;
    HonestAt(true, w.t, |v.t|);
  }

  lemma HelloAccepted(x: C.View, y: S.View)
    requires x.side.s == ReadServerHelloState && x.inbox != [] && x.inbox[0].kind == ServerHello && Understood(x, y)
    ensures !C.Refuses(x)
  {
  }

  lemma LastAccepted(x: C.View)
    requires x.inbox != [] && Truthful(true, x.side.t, x.inbox[0])
    requires x.side.s == ReadSessionTicket || x.side.s == ReadServerFinished
    requires x.inbox[0].kind == if x.side.s == ReadSessionTicket && x.ticket then NewSessionTicket
                 else if x.side.s == ReadServerFinished then Finished
                 else x.inbox[0].kind
    ensures !C.Refuses(x)
  {
  }

  lemma FirstFlightAccepted(x: C.View, restarted: bool, n: nat)
    requires Reading(x.side.s) && CSide.FullOnly(x.side.s) && x.inbox != [] && Truthful(true, x.side.t, x.inbox[0])
    requires C.NonePassed(x.side, x.dtls, restarted, x.status, x.inbox)
    requires SuitsFirstFlight(x, n, x.inbox[0].kind)
    ensures !C.Refuses(x)
  {
  }

  // ----- the server, reading -----

  /** The server's states that may refuse a message. */
  predicate ServerReading(s: ServerState) {
    || s == ReadClientHello || s == ReadClientCertificate || s == ReadClientKeyExchange
    || s == ReadClientCertificateVerify || s == ReadNextProto || s == ReadChannelId || s == ReadClientFinished
  }

  lemma ClientsTurnHere(w: SSide.Side)
    requires SSide.Settled(w) && ServerReading(w.s)
    ensures !ServersTurn(w.t)
  {
  }

  lemma ServerNotReading(y: S.View)
    requires y.inbox == [] || !ServerReading(y.side.s)
    ensures !S.Refuses(y)
  {
  }

  lemma BothPastHelloToo(x: C.View, y: S.View, m: Message)
    requires CSide.Settled(x.side) && SSide.Settled(y.side) && Understood(x, y) && ServerReading(y.side.s)
    requires y.side.t + [m] <= x.side.t
    ensures y.side.s == ReadClientHello ==> SSide.Progress(y.side.s, y.side.resumed) == 0
    ensures y.side.s != ReadClientHello ==>
              |x.side.t| >= 2 && |y.side.t| >= 2 && x.side.resumed == y.side.resumed
    ensures SSide.FullOnly(y.side.s) ==> !y.side.resumed
  {
    hide Kinds, Upto, ServersTurn, KeyExchangePrefix, CSide.PeerChecked, SSide.PeerChecked, SSide.SignatureChecked;
    ShortKinds(y.side.t);
    AtLeastTheHellos(y.side.resumed, SSide.Progress(y.side.s, y.side.resumed), y.side.f.filled);
  }

  lemma TruthfulReply(v: CSide.Side, w: SSide.Side, m: Message)
    requires w.t + [m] <= v.t && Honest(false, v.t) && !ServersTurn(w.t)
    ensures Truthful(false, w.t, m)
  {
    hide Honest, ServersTurn, Truthful;
    assert v.t[..|w.t|] == w.t && v.t[|w.t|] == m;
    HonestAt(false, v.t, |w.t|);
  }

  /** The kind the server waits for, if it waits for one. */
  function Awaited(w: SSide.Side): Option<Kind> {
    match w.s
    case ReadClientHello => Some(ClientHello)
    case ReadClientCertificate => if w.f.certRequest then Some(Certificate) else None
    case ReadClientKeyExchange => Some(ClientKeyExchange)
    case ReadClientCertificateVerify => if w.f.peerCerts > 0 then Some(CertificateVerify) else None
    case ReadNextProto => if w.f.nextProtoSeen then Some(NextProto) else None
    case ReadChannelId => if w.f.channelIdValid then Some(ChannelId) else None
    case ReadClientFinished => Some(Finished)
    case _ => None
  }

  lemma FirstComes(x: C.View, y: S.View, n: nat, k: Kind)
    requires y.side.s == ReadClientHello
    requires Follows(x.side.resumed, 0, y.side.f.filled,
                     CSide.Progress(x.side.s, x.side.resumed), x.side.f.filled, n, k)
    ensures Awaited(y.side) == Some(k)
  {
    assert FilledAt(x.side.resumed, CLIENT_HELLO, x.side.f.filled);
  }

  /** Both know whether a certificate was asked for. */
  lemma SameRequest(x: C.View, y: S.View, n: nat, k: Kind)
    requires CSide.Settled(x.side) && SSide.Settled(y.side) && !x.side.resumed && !y.side.resumed
    requires SSide.Progress(y.side.s, false) >= HELLO_DONE
    requires Follows(false, SSide.Progress(y.side.s, false), y.side.f.filled,
                     CSide.Progress(x.side.s, false), x.side.f.filled, n, k)
    ensures x.side.f.certRequest == y.side.f.certRequest && n > HELLO_DONE
  {
    hide Kinds, Upto, ServersTurn, KeyExchangePrefix, CSide.PeerChecked, SSide.PeerChecked, SSide.SignatureChecked;
    hide CSide.Resuming, SSide.Resuming;
    var mine, theirs := y.side.f.filled, x.side.f.filled;
    assert FilledAt(false, HELLO_DONE, mine);
    assert FilledAt(false, CERTIFICATE_REQUEST, mine) <==> CERTIFICATE_REQUEST in mine;
    assert FilledAt(false, CERTIFICATE_REQUEST, theirs) <==> CERTIFICATE_REQUEST in theirs;
  }

  lemma ReplyComes(x: C.View, y: S.View, n: nat, k: Kind)
    requires CSide.Settled(x.side) && SSide.Settled(y.side) && !x.side.resumed && !y.side.resumed && Understood(x, y)
    requires |x.side.t| >= 2 && |y.side.t| >= 2
    requires x.side.f.certRequest == y.side.f.certRequest && n > HELLO_DONE
    requires ServerReading(y.side.s) && y.side.s != ReadClientHello
    requires Follows(false, SSide.Progress(y.side.s, false), y.side.f.filled,
                     CSide.Progress(x.side.s, false), x.side.f.filled, n, k)
    ensures Awaited(y.side).Some? ==> Awaited(y.side) == Some(k)
  {
    hide Kinds, Upto, ServersTurn, KeyExchangePrefix, CSide.PeerChecked, SSide.PeerChecked, SSide.SignatureChecked;
    hide CSide.Resuming, SSide.Resuming;
    var mine, theirs := y.side.f.filled, x.side.f.filled;
    assert FilledAt(false, HELLO_DONE, mine) && FilledAt(false, CLIENT_KEY_EXCHANGE, mine);
    assert FilledAt(false, CLIENT_KEY_EXCHANGE, theirs) && FilledAt(false, CLIENT_FINISHED, theirs);
    assert FilledAt(false, CLIENT_CERTIFICATE, mine) <==> CLIENT_CERTIFICATE in mine;
    assert FilledAt(false, CLIENT_CERTIFICATE, theirs) <==> CLIENT_CERTIFICATE in theirs;
    assert FilledAt(false, VERIFY, mine) <==> VERIFY in mine;
    assert FilledAt(false, VERIFY, theirs) <==> VERIFY in theirs;
    assert FilledAt(false, NEXT_PROTO, mine) <==> NEXT_PROTO in mine;
    assert FilledAt(false, NEXT_PROTO, theirs) <==> NEXT_PROTO in theirs;
    assert FilledAt(false, CHANNEL_ID, mine) <==> CHANNEL_ID in mine;
    assert FilledAt(false, CHANNEL_ID, theirs) <==> CHANNEL_ID in theirs;
  }

  lemma ResumedReplyComes(x: C.View, y: S.View, n: nat, k: Kind)
    requires CSide.Settled(x.side) && SSide.Settled(y.side) && x.side.resumed && y.side.resumed && Understood(x, y)
    requires |x.side.t| >= 2 && |y.side.t| >= 2
    requires ServerReading(y.side.s) && y.side.s != ReadClientHello
    requires Follows(true, SSide.Progress(y.side.s, true), y.side.f.filled,
                     CSide.Progress(x.side.s, true), x.side.f.filled, n, k)
    ensures Awaited(y.side).Some? ==> Awaited(y.side) == Some(k)
  {
    hide Kinds, Upto, ServersTurn, KeyExchangePrefix, CSide.PeerChecked, SSide.PeerChecked, SSide.SignatureChecked;
    hide CSide.Established, SSide.Established;
    var mine, theirs := y.side.f.filled, x.side.f.filled;
    assert FilledAt(true, R_SERVER_FINISHED, mine) && FilledAt(true, R_CLIENT_FINISHED, theirs);
    assert FilledAt(true, R_NEXT_PROTO, mine) <==> R_NEXT_PROTO in mine;
    assert FilledAt(true, R_NEXT_PROTO, theirs) <==> R_NEXT_PROTO in theirs;
    assert FilledAt(true, R_CHANNEL_ID, mine) <==> R_CHANNEL_ID in mine;
    assert FilledAt(true, R_CHANNEL_ID, theirs) <==> R_CHANNEL_ID in theirs;
  }

  lemma AwaitedAccepted(y: S.View)
    requires y.inbox != [] && Truthful(false, y.side.t, y.inbox[0])
    requires Awaited(y.side).Some? ==> Awaited(y.side) == Some(y.inbox[0].kind)
    ensures !S.Refuses(y)
  {
  }

  /** Whatever the client says next, the server does not refuse it. */
  lemma ServerNeverRefuses(x: C.View, y: S.View)
    requires CSide.Settled(x.side) && SSide.Settled(y.side) && Understood(x, y)
    requires y.inbox != [] && !ServersTurn(y.side.t) ==>
               y.side.t + [y.inbox[0]] <= x.side.t && Honest(false, x.side.t)
    ensures !S.Refuses(y)
  {
    hide CSide.Settled, SSide.Settled, Understood, Follows, S.Refuses, Awaited, ServersTurn;
    if y.inbox != [] && ServerReading(y.side.s) {
      var m := y.inbox[0];
      ClientsTurnHere(y.side);
      BothPastHelloToo(x, y, m);
      var n := ClientGoesOn(x.side, y.side, m);
      TruthfulReply(x.side, y.side, m);
      if y.side.s == ReadClientHello {
        FirstComes(x, y, n, m.kind);
      } else if y.side.resumed {
        ResumedReplyComes(x, y, n, m.kind);
      } else {
        SameRequest(x, y, n, m.kind);
        ReplyComes(x, y, n, m.kind);
      }
      AwaitedAccepted(y);
    } else {
      ServerNotReading(y);
    }
  }

  // ----- over in-order channels -----

  /** What one side says next, as far as its partner has it or will get it, goes
      on where the partner's transcript ends. */
  lemma NextInChannel(
      byServer: bool, mine: Channel, t: seq<Message>, flight: seq<Item>, inbox: seq<Message>, more: seq<Message>,
      theirs: Channel, u: seq<Message>, flight': seq<Item>, inbox': seq<Message>)
    requires Accounts(!byServer, mine, t, flight, inbox) && Accounts(byServer, theirs, u, flight', inbox')
    requires mine.sentBefore == 0 && mine.receivedBefore == 0 && theirs.sentBefore == 0 && theirs.receivedBefore == 0
    requires mine.arrived + more <= Messages(theirs.wire) && theirs.arrived <= Messages(mine.wire)
    requires ServersTurn(t) == byServer && inbox + more != []
    ensures t + [(inbox + more)[0]] <= u && Honest(byServer, u)
  {
    hide From, Messages, ServersTurn, Honest;
    P.MessagesPrefix(theirs.wire, flight');
    P.MessagesPrefix(mine.wire, flight);
    assert mine.arrived[0..] == mine.arrived && theirs.arrived[0..] == theirs.arrived;
    assert Messages(theirs.wire + flight')[0..] == Messages(theirs.wire + flight');
    assert Messages(mine.wire + flight)[0..] == Messages(mine.wire + flight);
    var all := inbox + more;
    assert From(byServer, t) + all == mine.arrived + more;
    P.NextInOrder(byServer, t, u, all);
    if byServer {
      Comparable(t + [all[0]], u);
    } else {
      Comparable(u, t + [all[0]]);
    }
    SentAndReceived(byServer, t, u, all[0]);
  }

  lemma LookedAtNothing(x: C.View, restarted: bool, more: seq<Message>)
    requires C.NonePassed(x.side, x.dtls, restarted, x.status, x.inbox)
    ensures C.NonePassed(x.side, x.dtls, restarted, x.status, x.inbox + more)
  {
  }

  lemma ClientKnows(c: Hs)
    requires C.ClientValid(c) && !c.tls13
    ensures CSide.Settled(C.SideOf(c)) && Accounts(false, c.channel, c.transcript, c.flight, c.inbox)
    ensures C.NonePassed(C.SideOf(c), c.dtls, c.channel.receivedBefore > 0, c.certificateStatusExpected, c.inbox)
  {
  }

  lemma ServerKnows(s: Hs)
    requires S.ServerValid(s) && !s.tls13
    ensures SSide.Settled(S.SideOf(s)) && Accounts(true, s.channel, s.transcript, s.flight, s.inbox)
  {
  }

  /** Between any two steps of two joined sides: neither refuses what it has
      from the other, nor what is still on its way. */
  lemma NothingRefused(c: Hs, s: Hs, toClient: seq<Message>, toServer: seq<Message>)
    requires P.Joined(c, s) && Understood(C.ViewOf(c), S.ViewOf(s))
    requires c.channel.arrived + toClient <= Messages(s.channel.wire)
    requires s.channel.arrived + toServer <= Messages(c.channel.wire)
    ensures !C.Refuses(C.ViewOf(c).(inbox := c.inbox + toClient))
    ensures !S.Refuses(S.ViewOf(s).(inbox := s.inbox + toServer))
  {
    hide C.ClientValid, S.ServerValid, CSide.Settled, SSide.Settled, Accounts, Understood, C.NonePassed, C.Refuses;
    hide S.Refuses, Messages, ServersTurn, Honest;
    ClientKnows(c);
    ServerKnows(s);
    var x, y := C.ViewOf(c), S.ViewOf(s);
    LookedAtNothing(x, c.channel.receivedBefore > 0, toClient);
    if c.inbox + toClient != [] && ServersTurn(c.transcript) {
      NextInChannel(true, c.channel, c.transcript, c.flight, c.inbox, toClient,
                    s.channel, s.transcript, s.flight, s.inbox);
    }
    if s.inbox + toServer != [] && !ServersTurn(s.transcript) {
      NextInChannel(false, s.channel, s.transcript, s.flight, s.inbox, toServer,
                    c.channel, c.transcript, c.flight, c.inbox);
    }
    StillUnderstood(x, y, c.inbox + toClient, s.inbox + toServer);
    ClientNeverRefuses(x.(inbox := c.inbox + toClient), y, c.channel.receivedBefore > 0);
    ServerNeverRefuses(x, y.(inbox := s.inbox + toServer));
  }

  lemma StillUnderstood(x: C.View, y: S.View, inbox: seq<Message>, inbox': seq<Message>)
    requires Understood(x, y)
    ensures Understood(x.(inbox := inbox), y) && Understood(x, y.(inbox := inbox'))
  {
  }

  // ----- whole joint runs -----

  /** Nothing that goes wrong outside the machines lets the client's run fail. */
  predicate FaultlessClient(x: C.View, e: Env) {
    Obliging(e) && (x.side.s == ReadServerCertificate ==> e.certs > 0)
  }

  lemma ClientsFailure(c: Hs, x: C.View, envs: R.Envs)
    requires R.CameOut(c, Error, R.Client(x), envs) && FaultlessClient(x, envs.client(x.side.s))
    ensures !c.isServer && CSide.Settled(x.side) && C.Refuses(x)
    ensures Accounts(false, c.channel, x.side.t, x.flight, x.inbox)
    ensures C.NonePassed(x.side, x.dtls, c.channel.receivedBefore > 0, x.status, x.inbox)
  {
  }

  lemma ServersFailure(s: Hs, y: S.View, envs: R.Envs)
    requires R.CameOut(s, Error, R.Server(y), envs) && S.Untroubled(y, envs.server(y.side.s))
    ensures s.isServer && SSide.Settled(y.side) && S.Refuses(y)
    ensures Accounts(true, s.channel, y.side.t, y.flight, y.inbox)
  {
  }

  lemma KindsOf(w: SSide.Side)
    requires SSide.Settled(w)
    ensures HelloVerifyRequest !in Kinds(w.t)
  {
    hide Kinds, Upto, ServersTurn, KeyExchangePrefix, SSide.Established, SSide.Resuming, SSide.PeerChecked;
    hide SSide.SignatureChecked;
    P.UptoKinds(w.resumed, SSide.Progress(w.s, w.resumed), w.f.filled);
  }

  /** No server up to TLS 1.2 asks a client to start over. */
  lemma NeverVerifies(channel: Channel, w: SSide.Side, flight: seq<Item>, inbox: seq<Message>)
    requires SSide.Settled(w) && Accounts(true, channel, w.t, flight, inbox) && channel.sentBefore == 0
    ensures NoVerifyRequest(Messages(channel.wire))
  {
    hide From, Kinds, Messages, Honest, SSide.Settled;
    KindsOf(w);
    P.FromKinds(true, w.t);
    P.MessagesPrefix(channel.wire, flight);
    var out := Messages(channel.wire + flight);
    assert out[0..] == out;
    forall m | m in Messages(channel.wire)
      ensures m.kind != HelloVerifyRequest
    {
      assert m in out;
    }
  }

  lemma SomeArrived(c: Hs, s: Hs, toClient: seq<Message>)
    requires P.Counted(c) && P.InTransit(s, c, toClient) && NoVerifyRequest(Messages(s.channel.wire))
    ensures c.channel.sentBefore == 0 && c.channel.receivedBefore == 0
  {
    forall m | m in c.channel.arrived
      ensures m.kind != HelloVerifyRequest
    {
      assert m in Messages(s.channel.wire);
    }
  }

  /** If a call of a linked client fails though nothing went wrong outside, it
      has not understood the server's hello. */
  lemma ClientMisunderstood(
      c: Hs, s: Hs, toClient: seq<Message>, toServer: seq<Message>, x: C.View, envs: R.Envs)
    requires P.Linked(c, s, toClient, toServer) && s.wait != Error && !s.tls13
    requires R.CameOut(c, Error, R.Client(x), envs) && FaultlessClient(x, envs.client(x.side.s))
    ensures !Understood(x, S.ViewOf(s))
  {
    hide S.ServerValid, CSide.Settled, SSide.Settled, Accounts, Understood, C.NonePassed, C.Refuses, R.CameOut;
    hide FaultlessClient, Messages, ServersTurn, Honest, C.ClientValid;
    ClientsFailure(c, x, envs);
    ServerKnows(s);
    NeverVerifies(s.channel, S.SideOf(s), s.flight, s.inbox);
    SomeArrived(c, s, toClient);
    assert c.channel.arrived + [] == c.channel.arrived && x.inbox + [] == x.inbox;
    if x.inbox != [] && ServersTurn(x.side.t) {
      NextInChannel(true, c.channel, x.side.t, x.flight, x.inbox, [], s.channel, s.transcript, s.flight, s.inbox);
    }
    if Understood(x, S.ViewOf(s)) {
      ClientNeverRefuses(x, S.ViewOf(s), c.channel.receivedBefore > 0);
    }
  }

  lemma ServerMisunderstood(
      c: Hs, s: Hs, toClient: seq<Message>, toServer: seq<Message>, y: S.View, envs: R.Envs)
    requires P.Linked(c, s, toClient, toServer) && c.wait != Error && !c.tls13
    requires R.CameOut(s, Error, R.Server(y), envs) && S.Untroubled(y, envs.server(y.side.s))
    ensures !Understood(C.ViewOf(c), y)
  {
    hide C.ClientValid, CSide.Settled, SSide.Settled, Accounts, Understood, S.Refuses, R.CameOut, S.Untroubled;
    hide Messages, ServersTurn, Honest, S.ServerValid;
    ServersFailure(s, y, envs);
    ClientKnows(c);
    NeverVerifies(s.channel, y.side, y.flight, y.inbox);
    SomeArrived(c, s, toClient);
    assert s.channel.arrived + [] == s.channel.arrived && y.inbox + [] == y.inbox;
    if y.inbox != [] && !ServersTurn(y.side.t) {
      NextInChannel(false, s.channel, y.side.t, y.flight, y.inbox, [], c.channel, c.transcript, c.flight, c.inbox);
    }
    if Understood(C.ViewOf(c), y) {
      ServerNeverRefuses(C.ViewOf(c), y);
    }
  }
}
