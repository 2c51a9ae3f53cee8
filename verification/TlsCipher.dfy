/** Choosing the cipher suite (ssl3_choose_cipher in handshake_server.cc), with groups of equally
    preferred suites. */
module TlsCipher {
  import opened Wrappers
  import opened PbWire
  import opened NetworkOrder

  /** SSL_CIPHER, as far as it matters here. */
  datatype Cipher = Cipher(value: nat, minVersion: nat, maxVersion: nat, keyExchange: bv32, authentication: bv32)

  // ---------------------------------------------------------------- the client's list

  /** The known suites among these code points, in order. */
  function Known(table: map<nat, Cipher>, codes: seq<nat>): seq<Cipher> {
    if codes == [] then []
    else Known(table, codes[..|codes| - 1]) + if codes[|codes| - 1] in table then [table[codes[|codes| - 1]]] else []
  }

  function WireList(codes: seq<nat>): (s: seq<byte>)
    ensures |s| == 2 * |codes|
  {
    if codes == [] then [] else WireList(codes[..|codes| - 1]) + BigEndian2(codes[|codes| - 1])
  }

  /** The code points in a list on the wire. */
  function Codes(s: seq<byte>): (codes: seq<nat>)
    requires |s| % 2 == 0
    ensures |codes| == |s| / 2
    decreases |s|
  {
    if s == [] then [] else Codes(s[..|s| - 2]) + [FromBigEndian2(s[|s| - 2..])]
  }

  /** Reading a list gives what was written. */
  lemma {:induction false} ListRoundTrip(codes: seq<nat>)
    requires forall i :: 0 <= i < |codes| ==> codes[i] < 0x1_0000
    ensures Codes(WireList(codes)) == codes
    decreases |codes|
  {
    if codes != [] {
      var front, last := codes[..|codes| - 1], codes[|codes| - 1];
      ListRoundTrip(front);
      BigEndian2RoundTrip(last);
      ListStep(WireList(front), BigEndian2(last));
      assert front + [last] == codes;
    }
  }

  lemma {:induction false} ListStep(front: seq<byte>, last: seq<byte>)
    requires |front| % 2 == 0 && |last| == 2
    ensures Codes(front + last) == Codes(front) + [FromBigEndian2(last)]
  {
    var s := front + last;
    assert s[..|s| - 2] == front && s[|s| - 2..] == last;
  }

  /** ssl_parse_client_cipher_list: unknown suites are skipped, an odd length is an error. */
  method ParseClientCipherList(s: seq<byte>, table: map<nat, Cipher>) returns (list: Option<seq<Cipher>>)
    ensures list == if |s| % 2 == 1 then None else Some(Known(table, Codes(s)))
  {
    var known: seq<Cipher> := [];
    StartReading(s, table);
    hide ReadSoFar, Known, Codes, FromBigEndian2;
    var i := 0;
    while i < |s|
      invariant i <= |s| && ReadSoFar(s, table, i, known)
    {
      ReadAll(s, table, i, known);
      if |s| - i < 2 {
        return None;
      }
      ReadOn(s, table, i, known);
      var code := FromBigEndian2(s[i..i + 2]);
      if code in table {
        known := known + [table[code]];
      }
      i := i + 2;
    }
    ReadAll(s, table, i, known);
    list := Some(known);
  }

  /** The suites in the first i bytes. */
  ghost predicate ReadSoFar(s: seq<byte>, table: map<nat, Cipher>, i: nat, known: seq<Cipher>) {
    i <= |s| && i % 2 == 0 && known == Known(table, Codes(s[..i]))
  }

  lemma {:induction false} StartReading(s: seq<byte>, table: map<nat, Cipher>)
    ensures ReadSoFar(s, table, 0, [])
  {
  }

  lemma {:induction false} ReadOn(s: seq<byte>, table: map<nat, Cipher>, i: nat, known: seq<Cipher>)
    requires ReadSoFar(s, table, i, known) && i + 2 <= |s|
    ensures var code := FromBigEndian2(s[i..i + 2]);
            ReadSoFar(s, table, i + 2, if code in table then known + [table[code]] else known)
  {
    assert s[..i] + s[i..i + 2] == s[..i + 2];
    ListStep(s[..i], s[i..i + 2]);
    KnownStep(table, Codes(s[..i]), FromBigEndian2(s[i..i + 2]));
    hide Known, Codes, FromBigEndian2;
  }

  lemma {:induction false} ReadAll(s: seq<byte>, table: map<nat, Cipher>, i: nat, known: seq<Cipher>)
    requires ReadSoFar(s, table, i, known)
    ensures i <= |s|
    ensures |s| - i == 1 ==> |s| % 2 == 1
    ensures i == |s| ==> |s| % 2 == 0 && known == Known(table, Codes(s))
  {
    hide Known, Codes;
    if i == |s| { assert s[..i] == s; }
  }

  lemma {:induction false} KnownStep(table: map<nat, Cipher>, codes: seq<nat>, code: nat)
    ensures Known(table, codes + [code]) ==
            if code in table then Known(table, codes) + [table[code]] else Known(table, codes)
  {
    assert (codes + [code])[..|codes|] == codes;
  }

  // ---------------------------------------------------------------- the choice

  /** What the server can do for this client: the protocol version and the key exchange and
      authentication masks. */
  datatype Server = Server(version: nat, maskK: bv32, maskA: bv32)

  predicate Supports(server: Server, c: Cipher) {
    && c.minVersion <= server.version <= c.maxVersion
    && Shares(c.keyExchange, server.maskK) && Shares(c.authentication, server.maskA)
  }

  /** The masks have a bit in common. */
  predicate Shares(a: bv32, b: bv32) {
    a & b != 0
  }

  /** sk_SSL_CIPHER_find: the first position. */
  function Find(list: seq<Cipher>, c: Cipher): (index: Option<nat>)
    ensures index.Some? <==> c in list
    ensures index.Some? ==> index.value < |list| && list[index.value] == c && c !in list[..index.value]
    decreases |list|
  {
    if list == [] then None
    else
      var front := Find(list[..|list| - 1], c);
      if front.Some? then front else if list[|list| - 1] == c then Some(|list| - 1 as nat) else None
  }

  /** The lists to choose from: `grouped[i]` says that suite i and the one after it are equally
      preferred. It is None when every suite is on its own. */
  datatype Lists = Lists(prio: seq<Cipher>, grouped: Option<seq<bool>>, allow: seq<Cipher>)

  ghost predicate Shaped(l: Lists) {
    l.grouped.Some? ==> |l.grouped.value| == |l.prio|
  }

  predicate Grouped(l: Lists, i: nat)
    requires Shaped(l) && i < |l.prio|
  {
    l.grouped.Some? && l.grouped.value[i]
  }

  /** Suite i can be used: the server supports it, and it is in the other list. */
  predicate Usable(server: Server, l: Lists, i: nat)
    requires i < |l.prio|
  {
    Supports(server, l.prio[i]) && Find(l.allow, l.prio[i]).Some?
  }

  /** Suites i to j are in one group of equal preference. */
  ghost predicate Together(l: Lists, i: nat, j: nat)
    requires Shaped(l) && i <= |l.prio| && j <= |l.prio|
  {
    forall k :: i <= k < j ==> Grouped(l, k)
  }

  ghost predicate SameGroup(l: Lists, i: nat, j: nat)
    requires Shaped(l) && i < |l.prio| && j < |l.prio|
  {
    Together(l, i, j) && Together(l, j, i)
  }

  /** Suite `first` is the most preferred usable one, up to equal preference. */
  ghost predicate First(server: Server, l: Lists, first: nat)
    requires first < |l.prio|
  {
    Usable(server, l, first) && forall k :: 0 <= k < first ==> !Usable(server, l, k)
  }

  /** A group that is never closed: every flag from i to the end is set. */
  ghost predicate Unclosed(l: Lists, i: nat)
    requires Shaped(l) && i < |l.prio|
  {
    Together(l, i, |l.prio|)
  }

  /** Flags are well formed if the last group is closed. */
  ghost predicate WellFormed(l: Lists) {
    Shaped(l) && (l.prio != [] ==> !Grouped(l, |l.prio| - 1))
  }

  function Rank(l: Lists, i: nat): nat
    requires i < |l.prio| && Find(l.allow, l.prio[i]).Some?
  {
    Find(l.allow, l.prio[i]).value
  }

  /** The right choice: of the first preference group with a usable suite, the usable suite that the
      other list ranks first. */
  ghost predicate IsChoice(server: Server, l: Lists, first: nat, c: Cipher)
    requires Shaped(l) && first < |l.prio|
  {
    && First(server, l, first)
    && exists k :: 0 <= k < |l.prio| && Best(server, l, first, k) && l.prio[k] == c
  }

  ghost predicate Best(server: Server, l: Lists, first: nat, k: nat)
    requires Shaped(l) && first < |l.prio| && k < |l.prio|
  {
    && Usable(server, l, k) && SameGroup(l, first, k)
    && forall j :: 0 <= j < |l.prio| && Usable(server, l, j) && SameGroup(l, first, j) ==> Rank(l, k) <= Rank(l, j)
  }

  /** There is at most one right choice. */
  lemma {:induction false} ChoiceUnique(server: Server, l: Lists, first: nat, c: Cipher, first': nat, c': Cipher)
    requires Shaped(l) && first < |l.prio| && first' < |l.prio|
    requires IsChoice(server, l, first, c) && IsChoice(server, l, first', c')
    ensures first == first' && c == c'
  {
    var k :| 0 <= k < |l.prio| && Best(server, l, first, k) && l.prio[k] == c;
    var k' :| 0 <= k' < |l.prio| && Best(server, l, first', k') && l.prio[k'] == c';
    assert Rank(l, k) == Rank(l, k');
  }

  /** Without groups, as with the client's preference, the choice is the first usable suite. */
  lemma {:induction false} UngroupedChoice(server: Server, l: Lists, first: nat, c: Cipher)
    requires l.grouped.None? && first < |l.prio| && IsChoice(server, l, first, c)
    ensures c == l.prio[first]
  {
    var k :| 0 <= k < |l.prio| && Best(server, l, first, k) && l.prio[k] == c;
    assert !Grouped(l, k) && !Grouped(l, first);
  }

  /** The loop of ssl3_choose_cipher. For well-formed flags the answer is the right choice, and
      there is none exactly when no suite is usable. For other flags a first usable suite in the
      unclosed last group is missed. */
  method ChooseCipher(server: Server, l: Lists) returns (chosen: Option<Cipher>, ghost first: nat)
    requires Shaped(l)
    ensures chosen.Some? ==> first < |l.prio| && IsChoice(server, l, first, chosen.value) && !Unclosed(l, first)
    ensures chosen.None? ==> forall k :: 0 <= k < |l.prio| && First(server, l, k) ==> Unclosed(l, k)
    ensures WellFormed(l) ==> (chosen.None? <==> forall k :: 0 <= k < |l.prio| ==> !Usable(server, l, k))
  {
    var groupMin := -1;
    assert Scanned(server, l, 0, groupMin, 0, 0);
    hide Supports, Find, IsChoice, Scanned, Unclosed, First;
    ghost var best := 0;
    first := 0;
    var i := 0;
    while i < |l.prio|
      invariant i <= |l.prio| && Scanned(server, l, i, groupMin, first, best)
    {
      var c := l.prio[i];
      var found := Find(l.allow, c);
      if Supports(server, c) && found.Some? {
        Take(server, l, i, groupMin, first, best);
        ghost var isFirst := groupMin == -1;
        first := if isFirst then i else first;
        best := if isFirst || found.value < groupMin then i else best;
        if Grouped(l, i) {
          if groupMin == -1 || groupMin > found.value {
            groupMin := found.value;
          }
        } else {
          var cipherIndex := found.value;
          if groupMin != -1 && groupMin < cipherIndex {
            cipherIndex := groupMin;
          }
          return Some(l.allow[cipherIndex]), first;
        }
      } else {
        Skip(server, l, i, groupMin, first, best);
      }
      if l.grouped.Some? && !l.grouped.value[i] && groupMin != -1 {
        return Some(l.allow[groupMin]), first;
      }
      i := i + 1;
    }
    chosen := None;
    NothingChosen(server, l, groupMin, first, best);
  }

  /** The loop's state before suite i: nothing usable so far; or a first usable suite whose group is
      still open, and the best of the usable ones. */
  ghost predicate Scanned(server: Server, l: Lists, i: nat, groupMin: int, first: nat, best: nat)
    requires Shaped(l) && i <= |l.prio|
  {
    if groupMin == -1 then forall k :: 0 <= k < i ==> !Usable(server, l, k)
    else
      && first <= best < i && First(server, l, first) && Together(l, first, i)
      && Usable(server, l, best) && groupMin == Rank(l, best)
      && forall k :: 0 <= k < i && Usable(server, l, k) ==> groupMin <= Rank(l, k)
  }

  lemma {:induction false} Skip(server: Server, l: Lists, i: nat, groupMin: int, first: nat, best: nat)
    requires Shaped(l) && i < |l.prio| && Scanned(server, l, i, groupMin, first, best) && !Usable(server, l, i)
    ensures groupMin == -1 || Grouped(l, i) ==> Scanned(server, l, i + 1, groupMin, first, best)
    ensures groupMin != -1 && !Grouped(l, i) ==>
              && l.grouped.Some? && 0 <= groupMin < |l.allow| && first < |l.prio|
              && IsChoice(server, l, first, l.allow[groupMin]) && !Unclosed(l, first)
  {
    assert groupMin != -1 ==> Grouped(l, first);
    if groupMin != -1 && !Grouped(l, i) { GroupComplete(server, l, first, best, i); }
  }

  lemma {:induction false} Take(server: Server, l: Lists, i: nat, groupMin: int, first: nat, best: nat)
    requires Shaped(l) && i < |l.prio| && Scanned(server, l, i, groupMin, first, best) && Usable(server, l, i)
    ensures var r := Rank(l, i);
            var first' := if groupMin == -1 then i else first;
            var best' := if groupMin == -1 || r < groupMin then i else best;
            var min := if groupMin == -1 || groupMin > r then r else groupMin;
            && 0 <= min < |l.allow|
            && (Grouped(l, i) ==> Scanned(server, l, i + 1, min, first', best'))
            && (!Grouped(l, i) ==>
                  first' < |l.prio| && IsChoice(server, l, first', l.allow[min]) && !Unclosed(l, first'))
  {
    var r := Rank(l, i);
    var first', best' := if groupMin == -1 then i else first, if groupMin == -1 || r < groupMin then i else best;
    if !Grouped(l, i) { GroupComplete(server, l, first', best', i); }
  }

  lemma {:induction false} NothingChosen(server: Server, l: Lists, groupMin: int, first: nat, best: nat)
    requires Shaped(l) && Scanned(server, l, |l.prio|, groupMin, first, best)
    ensures forall k :: 0 <= k < |l.prio| && First(server, l, k) ==> Unclosed(l, k)
    ensures WellFormed(l) ==> forall k :: 0 <= k < |l.prio| ==> !Usable(server, l, k)
  {
    if groupMin != -1 {
      assert Grouped(l, |l.prio| - 1);
      forall k | 0 <= k < |l.prio| && First(server, l, k) ensures k == first {
      }
    }
  }

  /** When the loop is at the end of the group of the first usable suite, the lowest rank so far is
      the lowest of the group. */
  lemma {:induction false} GroupComplete(server: Server, l: Lists, first: nat, best: nat, end: nat)
    requires Shaped(l) && first <= best <= end < |l.prio| && First(server, l, first) && Together(l, first, end)
    requires !Grouped(l, end) && Usable(server, l, best)
    requires forall k :: 0 <= k <= end && Usable(server, l, k) ==> Rank(l, best) <= Rank(l, k)
    ensures IsChoice(server, l, first, l.prio[best]) && !Unclosed(l, first)
  {
    assert SameGroup(l, first, best);
    assert Best(server, l, first, best);
  }

  /** ssl_get_compatible_server_ciphers, from what the server has: a certificate and whether its key
      is an RSA key, a group shared with the client, and a PSK callback. */
  function CompatibleMasks(certificate: Option<bv32>, rsa: bool, sharedGroup: bool, psk: bool): (bv32, bv32) {
    var k1 := if certificate.Some? && rsa then K_RSA else 0;
    var k2 := if sharedGroup then Join(k1, K_ECDHE) else k1;
    var a := if certificate.Some? then certificate.value else 0;
    if psk then (Join(k2, K_PSK), Join(a, A_PSK)) else (k2, a)
  }

  const K_RSA: bv32 := 0x1
  const K_ECDHE: bv32 := 0x2
  const K_PSK: bv32 := 0x4
  const A_PSK: bv32 := 0x4

  /** A suite is supported exactly if the version is in its range, the server has what one of its key
      exchanges needs, and it can authenticate in one of its ways. */
  lemma {:induction false} CredentialsDecide(certificate: Option<bv32>, rsa: bool, sharedGroup: bool, psk: bool,
                                             version: nat, c: Cipher)
    ensures var (k, a) := CompatibleMasks(certificate, rsa, sharedGroup, psk);
            Supports(Server(version, k, a), c) <==>
              && c.minVersion <= version <= c.maxVersion
              && (|| (Shares(c.keyExchange, K_RSA) && certificate.Some? && rsa)
                  || (Shares(c.keyExchange, K_ECDHE) && sharedGroup)
                  || (Shares(c.keyExchange, K_PSK) && psk))
              && (|| (certificate.Some? && Shares(c.authentication, certificate.value))
                  || (Shares(c.authentication, A_PSK) && psk))
  {
    KeyExchangeMask(certificate, rsa, sharedGroup, psk, c.keyExchange);
    AuthenticationMask(certificate, rsa, sharedGroup, psk, c.authentication);
    hide Shares, CompatibleMasks;
  }

  lemma {:induction false} KeyExchangeMask(certificate: Option<bv32>, rsa: bool, sharedGroup: bool, psk: bool, m: bv32)
    ensures Shares(m, CompatibleMasks(certificate, rsa, sharedGroup, psk).0) <==>
              || (Shares(m, K_RSA) && certificate.Some? && rsa)
              || (Shares(m, K_ECDHE) && sharedGroup)
              || (Shares(m, K_PSK) && psk)
  {
    hide Shares, Join;
    var k1 := if certificate.Some? && rsa then K_RSA else 0;
    EitherBit(m, k1, K_ECDHE);
    EitherBit(m, if sharedGroup then Join(k1, K_ECDHE) else k1, K_PSK);
    NoBits(m);
  }

  lemma {:induction false} AuthenticationMask(certificate: Option<bv32>, rsa: bool, sharedGroup: bool, psk: bool, m: bv32)
    ensures Shares(m, CompatibleMasks(certificate, rsa, sharedGroup, psk).1) <==>
              (certificate.Some? && Shares(m, certificate.value)) || (Shares(m, A_PSK) && psk)
  {
    hide Shares, Join;
    EitherBit(m, if certificate.Some? then certificate.value else 0, A_PSK);
    NoBits(m);
  }

  function Join(a: bv32, b: bv32): bv32 {
    a | b
  }

  lemma {:induction false} NoBits(m: bv32)
    ensures !Shares(m, 0)
  {
  }

  lemma {:induction false} EitherBit(m: bv32, a: bv32, b: bv32)
    ensures Shares(m, Join(a, b)) <==> Shares(m, a) || Shares(m, b)
  {
    hide Join;
    AndOverOr(m, a, b);
    EitherZero(m & a, m & b);
  }

  lemma {:induction false} AndOverOr(m: bv32, a: bv32, b: bv32)
    ensures m & Join(a, b) == Join(m & a, m & b)
  {
  }

  lemma {:induction false} EitherZero(a: bv32, b: bv32)
    ensures Join(a, b) == 0 <==> a == 0 && b == 0
  {
  }

  // ---------------------------------------------------------------- bits

  predicate OneBit(m: bv32) {
    m != 0 && m & (m - 1) == 0
  }

  /** Every bit of m is set in a. */
  predicate Within(m: bv32, a: bv32) {
    a | m == a
  }

  function Lowest(x: bv32): bv32 {
    x & (0 - x)
  }

  /** Sharing is having one bit in common. */
  lemma {:induction false} SharesABit(a: bv32, b: bv32)
    ensures Shares(a, b) <==> exists m :: OneBit(m) && Within(m, a) && Within(m, b)
  {
    if Shares(a, b) {
      LowestBit(a & b);
      LowestWithin(a, b);
      assert OneBit(Lowest(a & b));
    }
    if m :| OneBit(m) && Within(m, a) && Within(m, b) { WithinBoth(m, a, b); }
  }

  lemma {:induction false} LowestBit(x: bv32)
    requires x != 0
    ensures OneBit(Lowest(x))
  {
  }

  lemma {:induction false} LowestWithin(a: bv32, b: bv32)
    ensures Within(Lowest(a & b), a) && Within(Lowest(a & b), b)
  {
  }

  lemma {:induction false} WithinBoth(m: bv32, a: bv32, b: bv32)
    requires m != 0 && Within(m, a) && Within(m, b)
    ensures Shares(a, b)
  {
  }

  lemma {:induction false} OneBitShares(m: bv32, a: bv32)
    requires OneBit(m)
    ensures Shares(m, a) <==> Within(m, a)
  {
    WithinItself(m);
    if Within(m, a) { WithinBoth(m, m, a); }
    if Shares(m, a) {
      var low := Lowest(m & a);
      LowestBit(m & a);
      LowestWithin(m, a);
      WithinItself(low);
      WithinBoth(low, low, m);
      OneBitsEqual(low, m);
    }
    hide Within, Shares, OneBit, Lowest;
  }

  lemma {:induction false} WithinItself(m: bv32)
    requires OneBit(m)
    ensures m != 0 && Within(m, m)
  {
  }

  lemma {:induction false} OneBitsEqual(m: bv32, n: bv32)
    requires OneBit(m) && OneBit(n)
    ensures Shares(m, n) <==> m == n
  {
  }

  /** The key exchanges are different bits. */
  lemma {:induction false} KeyExchangesApart()
    ensures OneBit(K_RSA) && OneBit(K_ECDHE) && OneBit(K_PSK) && OneBit(A_PSK)
    ensures K_RSA != K_ECDHE && K_RSA != K_PSK && K_ECDHE != K_PSK
  {
  }

  /** A suite with one key exchange and one way to authenticate can be used exactly if the version is in its
      range, the server has what that key exchange needs, and has a certificate of that kind or a PSK. */
  lemma {:induction false} CredentialsNeeded(certificate: Option<bv32>, rsa: bool, sharedGroup: bool, psk: bool,
                                             version: nat, c: Cipher)
    requires c.keyExchange == K_RSA || c.keyExchange == K_ECDHE || c.keyExchange == K_PSK
    requires OneBit(c.authentication)
    ensures var (k, a) := CompatibleMasks(certificate, rsa, sharedGroup, psk);
            Supports(Server(version, k, a), c) <==>
              && c.minVersion <= version <= c.maxVersion
              && (c.keyExchange == K_RSA ==> certificate.Some? && rsa)
              && (c.keyExchange == K_ECDHE ==> sharedGroup)
              && (c.keyExchange == K_PSK ==> psk)
              && ((certificate.Some? && Within(c.authentication, certificate.value)) || (c.authentication == A_PSK && psk))
  {
    CredentialsDecide(certificate, rsa, sharedGroup, psk, version, c);
    KeyExchangesApart();
    OneBitsEqual(c.keyExchange, K_RSA);
    OneBitsEqual(c.keyExchange, K_ECDHE);
    OneBitsEqual(c.keyExchange, K_PSK);
    OneBitsEqual(c.authentication, A_PSK);
    if certificate.Some? { OneBitShares(c.authentication, certificate.value); }
    hide Shares, CompatibleMasks, Supports, OneBit, Within;
  }

  // ---------------------------------------------------------------- the whole choice

  /** ssl3_choose_cipher: the server's preference with its groups, or the client's without. */
  method SelectCipher(server: Server, clientList: seq<byte>, table: map<nat, Cipher>,
                      serverPref: seq<Cipher>, grouped: Option<seq<bool>>, serverPreference: bool)
    returns (chosen: Option<Cipher>)
    requires WellFormed(Lists(serverPref, grouped, []))
    ensures |clientList| % 2 == 1 ==> chosen.None?
    ensures |clientList| % 2 == 0 ==>
              var client := Known(table, Codes(clientList));
              var l := if serverPreference then Lists(serverPref, grouped, client) else Lists(client, None, serverPref);
              && (chosen.None? <==> !exists c :: c in client && c in serverPref && Supports(server, c))
              && (chosen.Some? ==> exists first :: 0 <= first < |l.prio| && IsChoice(server, l, first, chosen.value))
  {
    var client := ParseClientCipherList(clientList, table);
    if client.None? {
      return None;
    }
    var l := if serverPreference then Lists(serverPref, grouped, client.value) else Lists(client.value, None, serverPref);
    ghost var first;
    chosen, first := ChooseCipher(server, l);
    if chosen.None? {
      if c :| c in client.value && c in serverPref && Supports(server, c) {
        var i :| 0 <= i < |l.prio| && l.prio[i] == c;
        assert Usable(server, l, i);
      }
    } else {
      var c := l.prio[first];
      assert c in client.value && c in serverPref && Supports(server, c);
    }
  }
}
