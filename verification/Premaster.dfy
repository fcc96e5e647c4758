/** The server's choice between a decrypted RSA premaster secret and a random
    one (handshake_server.cc; RFC 5246 section 7.4.7.1). */
module Premaster {
  import opened Prelude
  import opened ConstantTime
  import opened ConstantTime8

  /** SSL_MAX_MASTER_KEY_LENGTH */
  const LENGTH := 48

  /** PKCS #1 v1.5 overhead: 00 02, eight bytes of padding, 00. */
  const OVERHEAD := 11

  function High(version: bv16): bv8 { (version >> 8) as bv8 }

  function Low(version: bv16): bv8 { (version & 0xFF) as bv8 }

  // ----- the plain specification -----

  /** Index of the first zero byte from i on. */
  function FirstZero(s: seq<bv8>, i: nat): (z: Option<nat>)
    ensures z.Some? ==> i <= z.value < |s| && s[z.value] == 0 && forall j :: i <= j < z.value ==> s[j] != 0
    ensures z.None? ==> forall j :: i <= j < |s| ==> s[j] != 0
    decreases |s| - i
  {
    if i >= |s| then None else if s[i] == 0 then Some(i) else FirstZero(s, i + 1)
  }

  /** EME-PKCS1-v1_5 decoding (RFC 3447 section 7.2.2, step 3): 00 02, at least
      eight nonzero bytes, a zero byte, the message. */
  function Unpad(s: seq<bv8>): Option<seq<bv8>> {
    if |s| < 2 || s[0] != 0 || s[1] != 2 then None
    else
      match FirstZero(s, 2)
      case None => None
      case Some(z) => if z < 10 then None else Some(s[z + 1..])
  }

  /** EME-PKCS1-v1_5 encoding (step 2 of section 7.2.1). */
  function Pad(padding: seq<bv8>, message: seq<bv8>): seq<bv8> {
    [0, 2] + padding + [0] + message
  }

  /** A premaster secret is used if it has the right length and begins with the
      version of the ClientHello. */
  function Chosen(s: seq<bv8>, version: bv16, random: seq<bv8>): seq<bv8> {
    match Unpad(s)
    case None => random
    case Some(m) =>
      if |m| == LENGTH && m[0] == High(version) && m[1] == Low(version) then m else random
  }

  lemma {:induction false} FirstZeroAfter(s: seq<bv8>, i: nat, z: nat)
    requires i <= z < |s| && s[z] == 0 && forall j :: i <= j < z ==> s[j] != 0
    ensures FirstZero(s, i) == Some(z)
    decreases z - i
  {
    if i < z {
      FirstZeroAfter(s, i + 1, z);
    }
  }

  /** What the client pads, the server unpads. */
  lemma UnpadPad(padding: seq<bv8>, message: seq<bv8>)
    requires |padding| >= 8 && forall i :: 0 <= i < |padding| ==> padding[i] != 0
    ensures Unpad(Pad(padding, message)) == Some(message)
  {
    var s := Pad(padding, message);
    FirstZeroAfter(s, 2, 2 + |padding|);
    assert s[3 + |padding|..] == message;
  }

  // ----- the branch-free code -----

  /** Bytes 2 to n hold no zero. */
  predicate NoZero(s: seq<bv8>, n: nat) {
    n <= |s| && forall i :: 2 <= i < n ==> s[i] != 0
  }

  /** The padding ends just before the last 48 bytes. */
  predicate Padded(s: seq<bv8>, n: nat) {
    2 < n < |s| && s[0] == 0 && s[1] == 2 && NoZero(s, n - 1) && s[n - 1] == 0
  }

  function MaskIf(b: bool): bv8 { if b then TRUE_8 else FALSE_8 }

  /** The mask `good`, before the version is looked at. */
  method CheckPadding(buf: array<bv8>, paddingLen: nat) returns (good: bv8)
    requires 2 < paddingLen < buf.Length
    ensures good == MaskIf(Padded(buf[..], paddingLen))
  {
    good := Eq8(buf[0] as Word, 0) & Eq8(buf[1] as Word, 2);
    var i := 2;
    while i < paddingLen - 1
      invariant 2 <= i <= paddingLen - 1
      invariant good == MaskIf(buf[0] == 0 && buf[1] == 2 && NoZero(buf[..], i))
    {
      good := good & !IsZero8(buf[i] as Word);
      i := i + 1;
    }
    good := good & IsZero8(buf[paddingLen - 1] as Word);
  }

  /** What the mask comes to. */
  predicate Fits(s: seq<bv8>, version: bv16)
    requires |s| >= OVERHEAD + LENGTH
  {
    var n := |s| - LENGTH;
    Padded(s, n) && s[n] == High(version) && s[n + 1] == Low(version)
  }

  /** Looking for the zero byte at one fixed place decides the same. */
  lemma ChosenIf(s: seq<bv8>, version: bv16, random: seq<bv8>)
    requires |s| >= OVERHEAD + LENGTH
    ensures Chosen(s, version, random) == if Fits(s, version) then s[|s| - LENGTH..] else random
  {
    hide High, Low;
    var n := |s| - LENGTH;
    if Fits(s, version) {
      FirstZeroAfter(s, 2, n - 1);
    }
  }

  /** decryptLen is what the private key operation reported for buf. The error
      is a fatal decrypt_error alert. */
  method SelectPremaster(buf: array<bv8>, decryptLen: nat, version: bv16, premaster: array<bv8>) returns (ok: bool)
    requires premaster.Length == LENGTH && buf != premaster
    modifies premaster
    ensures ok == (decryptLen == buf.Length && decryptLen >= OVERHEAD + LENGTH)
    ensures premaster[..] == if ok then Chosen(buf[..], version, old(premaster[..])) else old(premaster[..])
  {
    hide Chosen, Padded, High, Low;
    if decryptLen != buf.Length {
      return false;
    }
    if decryptLen < OVERHEAD + premaster.Length {
      return false;
    }
    var paddingLen := decryptLen - premaster.Length;
    var good := CheckPadding(buf, paddingLen);
    good := good & Eq8(buf[paddingLen] as Word, High(version) as Word);
    good := good & Eq8(buf[paddingLen + 1] as Word, Low(version) as Word);
    ghost var fits := Fits(buf[..], version);
    assert good == MaskIf(fits);
    ChosenIf(buf[..], version, premaster[..]);
    SelectBytes(good, fits, buf, paddingLen, premaster);
    return true;
  }

  method SelectBytes(good: bv8, ghost fits: bool, buf: array<bv8>, paddingLen: nat, premaster: array<bv8>)
    requires buf != premaster && good == MaskIf(fits) && paddingLen + premaster.Length == buf.Length
    modifies premaster
    ensures premaster[..] == if fits then buf[paddingLen..] else old(premaster[..])
  {
    var i := 0;
    while i < premaster.Length
      invariant 0 <= i <= premaster.Length
      invariant forall j :: 0 <= j < premaster.Length ==>
                  premaster[j] == if j < i && fits then buf[paddingLen + j] else old(premaster[j])
    {
      premaster[i] := Select8(good, buf[paddingLen + i], premaster[i]);
      i := i + 1;
    }
  }
}
