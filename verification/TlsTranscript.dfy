/** Handshake messages up to TLS 1.2, transcripts, and why two sides that speak
    only in turn agree on theirs (RFC 5246 section 7.4.9, RFC 7627 section 3). */
module TlsTranscript {
  import opened Prelude

  datatype Kind =
    | HelloRequest | ClientHello | ServerHello | HelloVerifyRequest | NewSessionTicket
    | Certificate | ServerKeyExchange | CertificateRequest | ServerHelloDone
    | CertificateVerify | ClientKeyExchange | Finished | CertificateStatus
    | NextProto | ChannelId | Unknown(code: nat)

  /** The MAC of a Finished and the signature of a CertificateVerify are kept
      symbolic: over what transcript they are, and which side's the MAC is. */
  datatype Body = Plain(data: seq<byte>) | Mac(byServer: bool, over: seq<Message>) | Signed(over: seq<Message>)

  datatype Message = Message(kind: Kind, body: Body)

  /** Finished as `server` computes it from its transcript. */
  function FinishedOf(server: bool, transcript: seq<Message>): Message {
    Message(Finished, Mac(server, transcript))
  }

  // ----- taking turns -----

  /** After which messages the other side goes on. */
  predicate EndsFlight(kind: Kind) {
    kind == ClientHello || kind == ServerHelloDone || kind == Finished
  }

  /** Whether the server sends the next message. */
  predicate ServersTurn(t: seq<Message>) {
    if t == [] then false
    else
      var before := ServersTurn(t[..|t| - 1]);
      if EndsFlight(t[|t| - 1].kind) then !before else before
  }

  /** The messages of a transcript that one side sent. */
  function From(server: bool, t: seq<Message>): seq<Message> {
    if t == [] then []
    else
      var before := t[..|t| - 1];
      From(server, before) + (if ServersTurn(before) == server then [t[|t| - 1]] else [])
  }

  lemma TurnAppend(t: seq<Message>, m: Message)
    ensures ServersTurn(t + [m]) == (ServersTurn(t) != EndsFlight(m.kind))
    ensures From(true, t + [m]) == From(true, t) + (if ServersTurn(t) then [m] else [])
    ensures From(false, t + [m]) == From(false, t) + (if ServersTurn(t) then [] else [m])
  {
    assert (t + [m])[..|t|] == t;
  }

  lemma {:induction false} FromPrefix(server: bool, t: seq<Message>, i: nat)
    requires i <= |t|
    ensures From(server, t[..i]) <= From(server, t)
    decreases |t|
  {
    if i == |t| {
      assert t[..i] == t;
    } else {
      var before := t[..|t| - 1];
      assert before[..i] == t[..i];
      FromPrefix(server, before, i);
    }
  }

  /** An in-order channel: what was received is the start of what was sent.
      c and s are the client's and the server's transcripts. */
  predicate InOrder(c: seq<Message>, s: seq<Message>) {
    From(true, c) <= From(true, s) && From(false, s) <= From(false, c)
  }

  lemma {:induction false} SameStart(c: seq<Message>, s: seq<Message>, i: nat)
    requires InOrder(c, s) && i <= |c| && i <= |s|
    ensures c[..i] == s[..i]
    decreases i
  {
    if i > 0 {
      SameStart(c, s, i - 1);
      var before := c[..i - 1];
      assert c[..i] == before + [c[i - 1]] && s[..i] == before + [s[i - 1]];
      TurnAppend(before, c[i - 1]);
      TurnAppend(before, s[i - 1]);
      var turn := ServersTurn(before);
      FromPrefix(turn, c, i);
      FromPrefix(turn, s, i);
      var n := |From(turn, before)|;
      var longer := if turn then From(turn, s) else From(turn, c);
      assert longer[n] == c[i - 1] && longer[n] == s[i - 1];
    }
  }

  /** One transcript is always the start of the other. */
  lemma Comparable(c: seq<Message>, s: seq<Message>)
    requires InOrder(c, s)
    ensures c <= s || s <= c
  {
    var n := Min(|c|, |s|);
    SameStart(c, s, n);
    assert c[..|c|] == c && s[..|s|] == s;
  }

  // ----- Finished -----

  /** What `server` says covers what it had seen before: its Finished, and what
      its CertificateVerify signs; and a ServerHelloDone says nothing. */
  predicate Truthful(server: bool, before: seq<Message>, m: Message) {
    && (m.kind == Finished ==> m == FinishedOf(server, before))
    && (m.kind == CertificateVerify ==> m.body == Signed(before))
    && (m.kind == ServerHelloDone ==> m.body == Plain([]))
  }

  /** Everything that `server` said is. */
  predicate Honest(server: bool, t: seq<Message>) {
    if t == [] then true
    else
      var before := t[..|t| - 1];
      && Honest(server, before)
      && (ServersTurn(before) == server ==> Truthful(server, before, t[|t| - 1]))
  }

  lemma HonestAppend(server: bool, t: seq<Message>, m: Message)
    requires Honest(server, t)
    requires ServersTurn(t) == server ==> Truthful(server, t, m)
    ensures Honest(server, t + [m])
  {
    assert (t + [m])[..|t|] == t;
  }

  lemma {:induction false} HonestAt(server: bool, t: seq<Message>, i: nat)
    requires Honest(server, t) && i < |t|
    requires ServersTurn(t[..i]) == server
    ensures Truthful(server, t[..i], t[i])
    decreases |t|
  {
    if i < |t| - 1 {
      var before := t[..|t| - 1];
      assert before[..i] == t[..i];
      HonestAt(server, before, i);
    }
  }

  /** Whenever a side is about to check a Finished of the other side (m, not yet
      in its own transcript), the sender's transcript when it made that
      Finished was the same, so the check succeeds. */
  lemma {:induction false} FinishedAgrees(byServer: bool, checker: seq<Message>, sender: seq<Message>, m: Message)
    requires Honest(byServer, sender) && m.kind == Finished
    requires ServersTurn(checker) == byServer
    requires if byServer then InOrder(checker + [m], sender) else InOrder(sender, checker + [m])
    ensures |checker| < |sender| && sender[..|checker|] == checker && sender[|checker|] == m
    ensures m == FinishedOf(byServer, checker)
  {
    hide Honest, From, ServersTurn;
    var after := checker + [m];
    if byServer {
      Comparable(after, sender);
    } else {
      Comparable(sender, after);
    }
    SentAndReceived(byServer, checker, sender, m);
    assert sender[..|checker|] == checker && sender[|checker|] == m;
    HonestAt(byServer, sender, |checker|);
  }

  /** The sender is not behind: it has sent more than the checker had read. */
  lemma SentAndReceived(byServer: bool, checker: seq<Message>, sender: seq<Message>, m: Message)
    requires ServersTurn(checker) == byServer && From(byServer, checker + [m]) <= From(byServer, sender)
    requires checker + [m] <= sender || sender <= checker + [m]
    ensures checker + [m] <= sender
  {
    var after := checker + [m];
    TurnAppend(checker, m);
    if |sender| <= |checker| {
      assert sender == checker[..|sender|];
      FromPrefix(byServer, checker, |sender|);
    }
  }

  // ----- the master secret -----

  /** The transcript up to and including the ClientKeyExchange. */
  function KeyExchangePrefix(t: seq<Message>): Option<seq<Message>> {
    if t == [] then None
    else
      match KeyExchangePrefix(t[..|t| - 1])
      case Some(p) => Some(p)
      case None => if t[|t| - 1].kind == ClientKeyExchange then Some(t) else None
  }

  lemma KeyExchangeAppend(t: seq<Message>, m: Message)
    ensures KeyExchangePrefix(t).Some? ==> KeyExchangePrefix(t + [m]) == KeyExchangePrefix(t)
    ensures KeyExchangePrefix(t).None? ==>
              KeyExchangePrefix(t + [m]) == if m.kind == ClientKeyExchange then Some(t + [m]) else None
  {
    assert (t + [m])[..|t|] == t;
  }

  lemma {:induction false} KeyExchangeLonger(short: seq<Message>, long: seq<Message>)
    requires short <= long && KeyExchangePrefix(short).Some?
    ensures KeyExchangePrefix(long) == KeyExchangePrefix(short)
    decreases |long|
  {
    if |short| == |long| {
      assert short == long;
    } else {
      KeyExchangeLonger(short, long[..|long| - 1]);
    }
  }

  /** Both sides derive the master secret over the same messages. */
  lemma MasterSecretAgrees(c: seq<Message>, s: seq<Message>)
    requires InOrder(c, s) && KeyExchangePrefix(c).Some? && KeyExchangePrefix(s).Some?
    ensures KeyExchangePrefix(c) == KeyExchangePrefix(s)
  {
    Comparable(c, s);
    if c <= s {
      KeyExchangeLonger(c, s);
    } else {
      KeyExchangeLonger(s, c);
    }
  }

  // ----- the kinds of a transcript, in order -----

  function Kinds(t: seq<Message>): seq<Kind> {
    if t == [] then [] else Kinds(t[..|t| - 1]) + [t[|t| - 1].kind]
  }

  lemma KindsAppend(t: seq<Message>, m: Message)
    ensures Kinds(t + [m]) == Kinds(t) + [m.kind]
  {
    assert (t + [m])[..|t|] == t;
  }
}
