/** DTLS handshake messages and fragments on the wire (RFC 6347 section 4.2.2),
    as d1_both.cc writes and parses them. */
module DtlsMessage {
  import opened Prelude

  const HEADER_LENGTH: nat := 12

  const TWO24: int := 0x100_0000

  /** hm_header_st: a fragment's place in its message. */
  datatype Header = Header(kind: byte, msgLen: nat, sequence: nat, fragOff: nat, fragLen: nat)

  predicate Fits(h: Header) {
    h.msgLen < TWO24 && h.sequence < 0x1_0000 && h.fragOff < TWO24 && h.fragLen < TWO24
  }

  /** CBB_add_u24 and CBB_add_u16: big-endian. */
  function U24(n: nat): (s: seq<byte>)
    requires n < TWO24
    ensures |s| == 3
  {
    [n / 0x1_0000, n / 0x100 % 0x100, n % 0x100]
  }

  function U16(n: nat): (s: seq<byte>)
    requires n < 0x1_0000
    ensures |s| == 2
  {
    [n / 0x100, n % 0x100]
  }

  function FromU24(s: seq<byte>): (n: nat)
    requires |s| == 3
    ensures n < TWO24
  {
    var high: int := s[0];
    var middle: int := s[1];
    high * 0x1_0000 + middle * 0x100 + s[2]
  }

  function FromU16(s: seq<byte>): (n: nat)
    requires |s| == 2
    ensures n < 0x1_0000
  {
    var high: int := s[0];
    high * 0x100 + s[1]
  }

  function HeaderBytes(h: Header): (s: seq<byte>)
    requires Fits(h)
    ensures |s| == HEADER_LENGTH
  {
    [h.kind] + U24(h.msgLen) + U16(h.sequence) + U24(h.fragOff) + U24(h.fragLen)
  }

  datatype Parse = Bad | Good(header: Header, body: seq<byte>, rest: seq<byte>)

  /** dtls1_parse_fragment. */
  function ParseFragment(s: seq<byte>): (p: Parse)
    ensures p.Good? ==> Fits(p.header) && |p.body| == p.header.fragLen && |p.rest| < |s|
  {
    if |s| < HEADER_LENGTH then Bad
    else
      var h := Header(s[0], FromU24(s[1..4]), FromU16(s[4..6]), FromU24(s[6..9]), FromU24(s[9..12]));
      if |s| < HEADER_LENGTH + h.fragLen then Bad
      else Good(h, s[HEADER_LENGTH..HEADER_LENGTH + h.fragLen], s[HEADER_LENGTH + h.fragLen..])
  }

  lemma U24RoundTrip(n: nat)
    requires n < TWO24
    ensures FromU24(U24(n)) == n
  {
  }

  /** Parsing undoes writing and leaves what follows. */
  lemma FragmentRoundTrip(h: Header, body: seq<byte>, t: seq<byte>)
    requires Fits(h) && |body| == h.fragLen
    ensures ParseFragment(HeaderBytes(h) + body + t) == Good(h, body, t)
  {
    hide U24, FromU24;
    var s := HeaderBytes(h) + body + t;
    U24RoundTrip(h.msgLen);
    U24RoundTrip(h.fragOff);
    U24RoundTrip(h.fragLen);
    assert s[1..4] == U24(h.msgLen);
    assert s[4..6] == U16(h.sequence);
    assert s[6..9] == U24(h.fragOff);
    assert s[9..12] == U24(h.fragLen);
    assert s[HEADER_LENGTH..HEADER_LENGTH + h.fragLen] == body;
    assert s[HEADER_LENGTH + h.fragLen..] == t;
  }

  /** A handshake message as the sender queues and hashes it: one fragment. */
  datatype Message = Message(kind: byte, sequence: nat, body: seq<byte>)

  predicate Sendable(m: Message) {
    m.sequence < 0x1_0000 && |m.body| < TWO24
  }

  function WholeHeader(m: Message): Header {
    Header(m.kind, |m.body|, m.sequence, 0, |m.body|)
  }

  function RawBytes(m: Message): seq<byte>
    requires Sendable(m)
  {
    HeaderBytes(WholeHeader(m)) + m.body
  }
}
