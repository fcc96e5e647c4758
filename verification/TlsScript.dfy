/** The order of handshake messages up to TLS 1.2 (RFC 5246 section 7.3, figures
    1 and 2, with the NextProtocol, Channel ID and session ticket messages). */
module TlsScript {
  import opened TlsTranscript

  // Places of a full handshake.
  const CLIENT_HELLO: nat := 1
  const SERVER_HELLO: nat := 2
  const SERVER_CERTIFICATE: nat := 3
  const STATUS: nat := 4
  const SERVER_KEY_EXCHANGE: nat := 5
  const CERTIFICATE_REQUEST: nat := 6
  const HELLO_DONE: nat := 7
  const CLIENT_CERTIFICATE: nat := 8
  const CLIENT_KEY_EXCHANGE: nat := 9
  const VERIFY: nat := 10
  const NEXT_PROTO: nat := 11
  const CHANNEL_ID: nat := 12
  const CLIENT_FINISHED: nat := 13
  const TICKET: nat := 14
  const SERVER_FINISHED: nat := 15

  // Places of a resumed one, after the hellos.
  const R_TICKET: nat := 3
  const R_SERVER_FINISHED: nat := 4
  const R_NEXT_PROTO: nat := 5
  const R_CHANNEL_ID: nat := 6
  const R_CLIENT_FINISHED: nat := 7

  function KindAt(resumed: bool, n: nat): Kind {
    if n == CLIENT_HELLO then ClientHello
    else if n == SERVER_HELLO then ServerHello
    else if resumed then
      if n == R_TICKET then NewSessionTicket
      else if n == R_NEXT_PROTO then NextProto
      else if n == R_CHANNEL_ID then ChannelId
      else Finished
    else if n == SERVER_CERTIFICATE || n == CLIENT_CERTIFICATE then Certificate
    else if n == STATUS then CertificateStatus
    else if n == SERVER_KEY_EXCHANGE then ServerKeyExchange
    else if n == CERTIFICATE_REQUEST then CertificateRequest
    else if n == HELLO_DONE then ServerHelloDone
    else if n == CLIENT_KEY_EXCHANGE then ClientKeyExchange
    else if n == VERIFY then CertificateVerify
    else if n == NEXT_PROTO then NextProto
    else if n == CHANNEL_ID then ChannelId
    else if n == TICKET then NewSessionTicket
    else Finished
  }

  /** The places that may stay empty. */
  predicate Optional(resumed: bool, n: nat) {
    if resumed then n == R_TICKET || n == R_NEXT_PROTO || n == R_CHANNEL_ID
    else
      || n == SERVER_CERTIFICATE || n == STATUS || n == SERVER_KEY_EXCHANGE || n == CERTIFICATE_REQUEST
      || n == CLIENT_CERTIFICATE || n == VERIFY || n == NEXT_PROTO || n == CHANNEL_ID || n == TICKET
  }

  /** The kinds of a handshake up to place n, with these optional places filled. */
  function Upto(resumed: bool, n: nat, filled: set<nat>): seq<Kind> {
    if n == 0 then []
    else Upto(resumed, n - 1, filled) + (if Optional(resumed, n) && n !in filled then [] else [KindAt(resumed, n)])
  }

  /** What is decided later does not change what went before. */
  lemma {:induction false} UptoKeeps(resumed: bool, n: nat, filled: set<nat>, later: nat)
    requires n < later
    ensures Upto(resumed, n, filled + {later}) == Upto(resumed, n, filled)
    decreases n
  {
    if n > 0 {
      UptoKeeps(resumed, n - 1, filled, later);
    }
  }

  /** One more message, at its place. */
  lemma Fill(resumed: bool, n: nat, filled: set<nat>, t: seq<Message>, m: Message)
    requires n > 0 && Kinds(t) == Upto(resumed, n - 1, filled) && m.kind == KindAt(resumed, n)
    ensures Kinds(t + [m]) == Upto(resumed, n, filled + {n})
    ensures !Optional(resumed, n) ==> Kinds(t + [m]) == Upto(resumed, n, filled)
  {
    KindsAppend(t, m);
    UptoKeeps(resumed, n - 1, filled, n);
  }

  /** An optional place left empty. */
  lemma Skip(resumed: bool, n: nat, filled: set<nat>)
    requires n > 0 && Optional(resumed, n) && n !in filled
    ensures Upto(resumed, n, filled) == Upto(resumed, n - 1, filled)
  {
  }

  /** Both tables begin with the hellos. */
  lemma {:induction false} HellosFirst(resumed: bool, resumed': bool, n: nat, filled: set<nat>)
    requires n <= SERVER_HELLO
    ensures Upto(resumed, n, filled) == Upto(resumed', n, filled)
  {
    if n > 0 {
      HellosFirst(resumed, resumed', n - 1, filled);
    }
  }
}
