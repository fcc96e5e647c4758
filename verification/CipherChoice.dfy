/** The server's choice of a cipher suite (handshake_server.cc). */
module CipherChoice {
  import opened Prelude

  /** One entry of the static cipher table. */
  datatype Cipher = Cipher(id: nat, mkey: bv32, auth: bv32, prf: bv32)

  const K_RSA: bv32 := 1
  const K_ECDHE: bv32 := 2
  const K_PSK: bv32 := 4
  const K_GENERIC: bv32 := 8
  const A_RSA: bv32 := 1
  const A_ECDSA: bv32 := 2
  const A_PSK: bv32 := 4
  const A_GENERIC: bv32 := 8
  const MAC_DEFAULT: bv32 := 1

  const SSL3 := 0x0300
  const TLS1_2 := 0x0303
  const TLS1_3 := 0x0304

  function MinVersion(c: Cipher): nat {
    if c.mkey == K_GENERIC || c.auth == A_GENERIC then TLS1_3
    else if c.prf != MAC_DEFAULT then TLS1_2
    else SSL3
  }

  function MaxVersion(c: Cipher): nat {
    if c.mkey == K_GENERIC || c.auth == A_GENERIC then TLS1_3 else TLS1_2
  }

  /** What ssl_get_compatible_server_ciphers found, and the version. */
  datatype Config = Config(version: nat, maskK: bv32, maskA: bv32)

  predicate Compatible(cfg: Config, c: Cipher) {
    && MinVersion(c) <= cfg.version <= MaxVersion(c)
    && c.mkey & cfg.maskK != 0 && c.auth & cfg.maskA != 0
  }

  /** The server's certificate, by the kind of its key. */
  datatype Certificate = NoCertificate | Rsa | Ecdsa | Ed25519 | Other

  /** What the server can use: its certificate, a group shared with the client,
      a callback for pre-shared keys. */
  datatype Keys = Keys(certificate: Certificate, sharedGroup: bool, psk: bool)

  /** The kinds of suites in the cipher table: the exchange, its authentication
      and the hash of the transcript (1: the one of TLS 1.0 and 1.1). */
  predicate InTable(c: Cipher) {
    && (c.mkey, c.auth) in {(1, 1), (2, 1), (2, 2), (2, 4), (4, 4), (8, 8)}
    && c.prf in {1, 2, 4}
  }

  /** Which suites a server can negotiate up to TLS 1.2: RSA key exchange needs
      an RSA certificate, an ephemeral one a shared group and a key to sign
      with or to share, a pre-shared key its callback; a suite with a hash of
      its own needs TLS 1.2, and those of TLS 1.3 are chosen elsewhere. */
  predicate Suits(version: nat, k: Keys, c: Cipher) {
    && (if c.prf == 1 then 0x0300 <= version <= 0x0303 else version == 0x0303)
    && match (c.mkey, c.auth)
       case (1, 1) => k.certificate.Rsa?
       case (2, 1) => k.sharedGroup && k.certificate.Rsa?
       case (2, 2) => k.sharedGroup && (k.certificate.Ecdsa? || k.certificate.Ed25519?)
       case (2, 4) => k.sharedGroup && k.psk
       case (4, 4) => k.psk
       case _ => false
  }

  /** ssl_cipher_auth_mask_for_key */
  function AuthMaskForKey(certificate: Certificate): bv32 {
    match certificate
    case Rsa => A_RSA
    case Ecdsa => A_ECDSA
    case Ed25519 => A_ECDSA
    case _ => 0
  }

  /** The masks admit exactly the suites the server has the keys for. */
  method CompatibleServerCiphers(version: nat, k: Keys) returns (cfg: Config)
    ensures cfg.version == version
    ensures forall c :: InTable(c) ==> (Compatible(cfg, c) <==> Suits(version, k, c))
  {
    var maskK: bv32, maskA: bv32 := 0, 0;
    if k.certificate != NoCertificate {
      maskA := maskA | AuthMaskForKey(k.certificate);
      if k.certificate.Rsa? {
        maskK := maskK | K_RSA;
      }
    }
    if k.sharedGroup {
      maskK := maskK | K_ECDHE;
    }
    if k.psk {
      maskK := maskK | K_PSK;
      maskA := maskA | A_PSK;
    }
    cfg := Config(version, maskK, maskA);
  }

  /** sk_SSL_CIPHER_find on an unsorted stack. */
  function First(s: seq<Cipher>, c: Cipher): (r: Option<nat>)
    ensures r.None? <==> c !in s
    ensures r.Some? ==> r.value < |s| && s[r.value] == c && forall j :: 0 <= j < r.value ==> s[j] != c
  {
    if s == [] then None
    else if s[0] == c then Some(0)
    else
      match First(s[1..], c)
      case None => None
      case Some(n) => Some(n + 1)
  }

  /** Both sides can use the cipher at this place of the priority list. */
  predicate Usable(cfg: Config, prio: seq<Cipher>, allow: seq<Cipher>, i: nat): (u: bool)
    ensures u ==> i < |prio| && First(allow, prio[i]).Some?
  {
    i < |prio| && Compatible(cfg, prio[i]) && prio[i] in allow
  }

  /** The flags as bytes 1 (more of the group follows) or 0; none at all stands
      for groups of one. */
  predicate InGroup(flags: Option<seq<bool>>, i: nat) {
    flags.Some? && i < |flags.value| && flags.value[i]
  }

  /** lo..hi is one equal-preference group. */
  predicate Group(flags: Option<seq<bool>>, lo: nat, hi: nat) {
    && lo <= hi
    && (lo == 0 || !InGroup(flags, lo - 1))
    && (forall i: nat :: lo <= i < hi ==> InGroup(flags, i))
    && !InGroup(flags, hi)
  }

  /** The cipher comes from the first group that has a usable one, and of those
      is the one listed earliest in `allow`. */
  predicate BestOfFirstGroup(
      cfg: Config, prio: seq<Cipher>, flags: Option<seq<bool>>, allow: seq<Cipher>, c: Cipher, lo: nat, hi: nat)
  {
    && Group(flags, lo, hi) && hi < |prio|
    && (forall i: nat :: i < lo ==> !Usable(cfg, prio, allow, i))
    && (exists k: nat :: lo <= k <= hi && Usable(cfg, prio, allow, k) && prio[k] == c)
    && (forall k: nat :: lo <= k <= hi && Usable(cfg, prio, allow, k) ==>
          First(allow, c).value <= First(allow, prio[k]).value)
  }

  ghost predicate Chosen(cfg: Config, prio: seq<Cipher>, flags: Option<seq<bool>>, allow: seq<Cipher>, c: Cipher) {
    exists lo: nat, hi: nat :: BestOfFirstGroup(cfg, prio, flags, allow, c, lo, hi)
  }

  /** A usable cipher whose group is closed by a later 0. */
  predicate InClosedGroup(
      cfg: Config, prio: seq<Cipher>, flags: Option<seq<bool>>, allow: seq<Cipher>, i: nat, hi: nat)
  {
    Usable(cfg, prio, allow, i) && i <= hi < |prio| && !InGroup(flags, hi)
  }

  lemma UsableHere(cfg: Config, prio: seq<Cipher>, allow: seq<Cipher>, i: nat)
    requires i < |prio|
    ensures Usable(cfg, prio, allow, i) <==> Compatible(cfg, prio[i]) && First(allow, prio[i]).Some?
  {
  }

  /** The loop over the priority list. */
  method Choose(cfg: Config, prio: seq<Cipher>, flags: Option<seq<bool>>, allow: seq<Cipher>)
    returns (r: Option<Cipher>)
    requires flags.Some? ==> |flags.value| == |prio|
    ensures r.Some? ==> Chosen(cfg, prio, flags, allow, r.value)
    ensures r.None? <==> forall i: nat, hi: nat :: !InClosedGroup(cfg, prio, flags, allow, i, hi)
  {
    hide Compatible, First, Usable;
    ghost var lo: nat := 0;
    var groupMin: int := -1;
    var i := 0;
    while i < |prio|
      invariant 0 <= lo <= i <= |prio| && -1 <= groupMin < |allow|
      invariant lo == 0 || !InGroup(flags, lo - 1)
      invariant flags.None? ==> lo == i
      invariant forall k: nat :: lo <= k < i ==> InGroup(flags, k)
      invariant forall k: nat :: k < lo ==> !Usable(cfg, prio, allow, k)
      invariant groupMin == -1 ==> forall k: nat :: lo <= k < i ==> !Usable(cfg, prio, allow, k)
      invariant groupMin != -1 ==> exists k: nat ::
                  lo <= k < i && Usable(cfg, prio, allow, k) && First(allow, prio[k]) == Some(groupMin)
      invariant groupMin != -1 ==> forall k: nat ::
                  lo <= k < i && Usable(cfg, prio, allow, k) ==> groupMin <= First(allow, prio[k]).value
    {
      var c := prio[i];
      UsableHere(cfg, prio, allow, i);
      if Compatible(cfg, c) && First(allow, c).Some? {
        var cipherIndex := First(allow, c).value;
        if flags.Some? && flags.value[i] {
          if groupMin == -1 || groupMin > cipherIndex {
            groupMin := cipherIndex;
          }
        } else {
          if groupMin != -1 && groupMin < cipherIndex {
            cipherIndex := groupMin;
          }
          assert InClosedGroup(cfg, prio, flags, allow, i, i);
          assert BestOfFirstGroup(cfg, prio, flags, allow, allow[cipherIndex], lo, i);
          return Some(allow[cipherIndex]);
        }
      }
      if flags.Some? && !flags.value[i] && groupMin != -1 {
        ghost var k: nat :| lo <= k < i && Usable(cfg, prio, allow, k) && First(allow, prio[k]) == Some(groupMin);
        assert InClosedGroup(cfg, prio, flags, allow, k, i);
        assert BestOfFirstGroup(cfg, prio, flags, allow, allow[groupMin], lo, i);
        return Some(allow[groupMin]);
      }
      assert Usable(cfg, prio, allow, i) ==> InGroup(flags, i) && groupMin != -1;
      if !InGroup(flags, i) {
        assert forall k: nat :: lo <= k < i + 1 ==> !Usable(cfg, prio, allow, k);
        lo := i + 1;
      }
      i := i + 1;
    }
    r := None;
  }

  lemma ChosenIsShared(
      cfg: Config, prio: seq<Cipher>, flags: Option<seq<bool>>, allow: seq<Cipher>, r: Option<Cipher>)
    requires r.Some? ==> Chosen(cfg, prio, flags, allow, r.value)
    ensures r.Some? ==> r.value in prio && r.value in allow && Compatible(cfg, r.value)
  {
    if r.Some? {
      var lo: nat, hi: nat :| BestOfFirstGroup(cfg, prio, flags, allow, r.value, lo, hi);
      var k: nat :| lo <= k <= hi && Usable(cfg, prio, allow, k) && prio[k] == r.value;
    }
  }

  /** The client's list is the parsed one (None: it did not parse). */
  method ChooseCipher(
      version: nat, keys: Keys, serverPreference: bool,
      server: seq<Cipher>, flags: Option<seq<bool>>, client: Option<seq<Cipher>>)
    returns (r: Option<Cipher>, ghost cfg: Config)
    requires flags.Some? ==> |flags.value| == |server|
    ensures forall c :: InTable(c) ==> (Compatible(cfg, c) <==> Suits(version, keys, c))
    ensures client.None? ==> r.None?
    ensures client.Some? && r.Some? ==> r.value in server && r.value in client.value && Compatible(cfg, r.value)
    ensures client.Some? && r.Some? ==>
              if serverPreference then Chosen(cfg, server, flags, client.value, r.value)
              else Chosen(cfg, client.value, None, server, r.value)
    ensures client.Some? ==> (r.None? <==>
              if serverPreference
              then forall i: nat, hi: nat :: !InClosedGroup(cfg, server, flags, client.value, i, hi)
              else forall i: nat, hi: nat :: !InClosedGroup(cfg, client.value, None, server, i, hi))
  {
    var masks := CompatibleServerCiphers(version, keys);
    cfg := masks;
    if client.None? {
      return None, masks;
    }
    hide Suits, Compatible, InTable, InClosedGroup;
    if serverPreference {
      r := Choose(masks, server, flags, client.value);
      ChosenIsShared(masks, server, flags, client.value, r);
    } else {
      r := Choose(masks, client.value, None, server);
      ChosenIsShared(masks, client.value, None, server, r);
    }
  }

  // ----- what the choice means -----

  /** With a closed last group, nothing is chosen only if nothing is shared. */
  lemma NothingSharedIff(cfg: Config, prio: seq<Cipher>, flags: Option<seq<bool>>, allow: seq<Cipher>)
    requires flags.Some? ==> |flags.value| == |prio|
    requires |prio| > 0 ==> !InGroup(flags, |prio| - 1)
    ensures (forall i: nat, hi: nat :: !InClosedGroup(cfg, prio, flags, allow, i, hi)) <==>
            (forall c :: c in prio && Compatible(cfg, c) ==> c !in allow)
  {
    if c :| c in prio && Compatible(cfg, c) && c in allow {
      var i: nat :| i < |prio| && prio[i] == c;
      assert InClosedGroup(cfg, prio, flags, allow, i, |prio| - 1);
    }
  }

  /** Otherwise a shared cipher may be missed: a lone one in an open group. */
  lemma OpenGroupIsMissed() returns (cfg: Config, c: Cipher)
    ensures Compatible(cfg, c)
    ensures forall i: nat, hi: nat :: !InClosedGroup(cfg, [c], Some([true]), [c], i, hi)
  {
    cfg, c := Config(TLS1_2, 1, 1), Cipher(0x2f, 1, 1, MAC_DEFAULT);
  }

  /** Without groups: the first cipher of the priority list that both can use. */
  lemma WithoutGroups(
      cfg: Config, prio: seq<Cipher>, allow: seq<Cipher>, c: Cipher, lo: nat, hi: nat)
    requires BestOfFirstGroup(cfg, prio, None, allow, c, lo, hi)
    ensures lo == hi < |prio| && prio[lo] == c && Compatible(cfg, c) && c in allow
    ensures forall i: nat :: i < lo ==> !(Compatible(cfg, prio[i]) && prio[i] in allow)
  {
    assert lo < hi ==> InGroup(None, lo);
    forall i: nat | i < lo
      ensures !(Compatible(cfg, prio[i]) && prio[i] in allow)
    {
      assert !Usable(cfg, prio, allow, i);
    }
  }

  /** The result is determined: the same group and the same cipher. */
  lemma BestIsUnique(
      cfg: Config, prio: seq<Cipher>, flags: Option<seq<bool>>, allow: seq<Cipher>,
      c: Cipher, lo: nat, hi: nat, c': Cipher, lo': nat, hi': nat)
    requires BestOfFirstGroup(cfg, prio, flags, allow, c, lo, hi)
    requires BestOfFirstGroup(cfg, prio, flags, allow, c', lo', hi')
    ensures c == c' && lo == lo' && hi == hi'
  {
    if lo < lo' {
      GroupsApart(flags, lo, hi, lo', hi');
    } else if lo' < lo {
      GroupsApart(flags, lo', hi', lo, hi);
    } else {
      assert hi < hi' ==> InGroup(flags, hi);
      assert hi' < hi ==> InGroup(flags, hi');
    }
  }

  lemma GroupsApart(flags: Option<seq<bool>>, lo: nat, hi: nat, lo': nat, hi': nat)
    requires Group(flags, lo, hi) && Group(flags, lo', hi') && lo < lo'
    ensures hi < lo'
  {
    var last: nat := lo' - 1;
    assert last < hi ==> InGroup(flags, last);
  }
}
