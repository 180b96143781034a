// The server's choice of a cipher suite, with equal-preference groups.
module TlsCipherChoice {
  import opened Basics

  datatype Cipher = Cipher(id: nat, minVersion: nat, maxVersion: nat, mkey: bv32, auth: bv32)

  /** What a connection supports: its version and the key exchange and
      authentication masks of `ssl_get_compatible_server_ciphers`. */
  datatype Config = Config(version: nat, maskK: bv32, maskA: bv32)

  predicate Supported(cfg: Config, c: Cipher) {
    c.minVersion <= cfg.version <= c.maxVersion && c.mkey & cfg.maskK != 0 && c.auth & cfg.maskA != 0
  }

  /** At inputs: the version has to lie in the range of the cipher, both ends included,
      and each of the two masks has to admit it by itself. */
  lemma SupportedAtInputs()
    ensures Supported(Config(0x0303, 1, 2), Cipher(1, 0x0301, 0x0303, 5, 6))
    ensures Supported(Config(0x0301, 1, 2), Cipher(1, 0x0301, 0x0303, 5, 6))
    ensures !Supported(Config(0x0300, 1, 2), Cipher(1, 0x0301, 0x0303, 5, 6))
    ensures !Supported(Config(0x0304, 1, 2), Cipher(1, 0x0301, 0x0303, 5, 6))
    ensures !Supported(Config(0x0303, 2, 2), Cipher(1, 0x0301, 0x0303, 5, 6))
    ensures !Supported(Config(0x0303, 1, 1), Cipher(1, 0x0301, 0x0303, 5, 6))
  {
  }

  /** `sk_SSL_CIPHER_find`: the first position of `c`. */
  function Rank(list: seq<Cipher>, c: Cipher): (r: Option<nat>)
    ensures r.Some? <==> c in list
    ensures r.Some? ==> r.value < |list| && list[r.value] == c && c !in list[..r.value]
  {
    if list == [] then None
    else if list[0] == c then Some(0)
    else
      var r := Rank(list[1..], c);
      if r.None? then None
      else
        assert forall k :: 0 <= k < r.value ==> list[..r.value + 1][k + 1] == list[1..][..r.value][k];
        Some(r.value + 1)
  }

  predicate Usable(cfg: Config, allow: seq<Cipher>, c: Cipher) {
    Supported(cfg, c) && c in allow
  }

  /** Entries `i` and `j` have the same preference: no group ends between them. */
  ghost predicate SameGroup(inGroup: seq<bool>, i: nat, j: nat)
    requires i < |inGroup| && j < |inGroup|
  {
    forall k :: (if i <= j then i <= k < j else j <= k < i) ==> inGroup[k]
  }

  /** The group of entry `i` is terminated. */
  predicate Closed(inGroup: seq<bool>, i: nat) {
    exists j :: i <= j < |inGroup| && !inGroup[j]
  }

  /** `prio[i]` is the answer: usable, in a closed group before which nothing is
      usable, and first of that group's usable ciphers in the order of `allow`. */
  ghost predicate Best(cfg: Config, prio: seq<Cipher>, inGroup: seq<bool>, allow: seq<Cipher>, i: nat)
    requires |inGroup| == |prio| && i < |prio|
  {
    && Usable(cfg, allow, prio[i]) && Closed(inGroup, i)
    && forall k :: 0 <= k < |prio| && Usable(cfg, allow, prio[k]) ==>
         if SameGroup(inGroup, i, k) then Rank(allow, prio[i]).value <= Rank(allow, prio[k]).value else i < k
  }

  /** The loop of `ssl3_choose_cipher`. `inGroup` is None for a null pointer. */
  method Choose(cfg: Config, prio: seq<Cipher>, flags: Option<seq<bool>>, allow: seq<Cipher>) returns (r: Option<Cipher>)
    requires flags.Some? ==> |flags.value| == |prio|
    ensures var inGroup := Flags(prio, flags);
            match r
            case Some(c) => exists i :: 0 <= i < |prio| && prio[i] == c && Best(cfg, prio, inGroup, allow, i)
            case None => forall i :: 0 <= i < |prio| && Closed(inGroup, i) ==> !Usable(cfg, allow, prio[i])
  {
    hide Supported, Best, Rank, Closed;
    ghost var inGroup := Flags(prio, flags);
    var groupMin: Option<nat> := None;
    ghost var best: nat, start: nat := 0, 0;   // the entry behind groupMin; where the group began
    for i := 0 to |prio|
      invariant start <= i && (forall k :: start <= k < i ==> inGroup[k]) && (start > 0 ==> !inGroup[start - 1])
      invariant forall k :: 0 <= k < start ==> !Usable(cfg, allow, prio[k])
      invariant flags.None? ==> groupMin.None?
      invariant groupMin.None? ==> forall k :: start <= k < i ==> !Usable(cfg, allow, prio[k])
      invariant groupMin.Some? ==>
                  && start <= best < i && Usable(cfg, allow, prio[best]) && Rank(allow, prio[best]) == groupMin
                  && forall k :: start <= k < i && Usable(cfg, allow, prio[k]) ==> groupMin.value <= Rank(allow, prio[k]).value
    {
      var c := prio[i];
      var index := Rank(allow, c);
      if Supported(cfg, c) && index.Some? {
        if flags.Some? && flags.value[i] {
          if groupMin.None? || groupMin.value > index.value {
            groupMin, best := index, i;
          }
        } else {
          var cipherIndex := index.value;
          best := if groupMin.Some? && groupMin.value < cipherIndex then best else i;
          if groupMin.Some? && groupMin.value < cipherIndex {
            cipherIndex := groupMin.value;
          }
          BestInGroup(cfg, prio, inGroup, allow, best, start, i);
          return Some(allow[cipherIndex]);
        }
      }
      if flags.Some? && !flags.value[i] && groupMin.Some? {
        BestInGroup(cfg, prio, inGroup, allow, best, start, i);
        return Some(allow[groupMin.value]);
      }
      if !inGroup[i] {
        start := i + 1;
      }
    }
    NoneClosed(inGroup, start);
    r := None;
  }

  /** Without flags every cipher is a group of its own. */
  function Flags(prio: seq<Cipher>, flags: Option<seq<bool>>): (r: seq<bool>) {
    if flags.Some? then flags.value else seq(|prio|, _ => false)
  }

  lemma NoneClosed(inGroup: seq<bool>, start: nat)
    requires forall k :: start <= k < |inGroup| ==> inGroup[k]
    ensures forall i: nat :: start <= i ==> !Closed(inGroup, i)
  {
  }

  /** The group is entries `start` to `end`, and nothing before it is usable. */
  lemma BestInGroup(cfg: Config, prio: seq<Cipher>, inGroup: seq<bool>, allow: seq<Cipher>, best: nat, start: nat, end: nat)
    requires |inGroup| == |prio| && start <= best <= end < |prio|
    requires (forall k :: start <= k < end ==> inGroup[k]) && !inGroup[end]
    requires forall k :: 0 <= k < start ==> !Usable(cfg, allow, prio[k])
    requires Usable(cfg, allow, prio[best])
    requires forall k :: start <= k <= end && Usable(cfg, allow, prio[k]) ==> Rank(allow, prio[best]).value <= Rank(allow, prio[k]).value
    ensures Best(cfg, prio, inGroup, allow, best)
  {
  }

  /** `ssl3_choose_cipher`. With server preference the client's order decides within
      the server's groups; without it the client's order decides outright. */
  method ChooseCipher(cfg: Config, serverPreference: bool, client: Option<seq<Cipher>>,
                      server: seq<Cipher>, inGroup: seq<bool>) returns (r: Option<Cipher>)
    requires |inGroup| == |server|
    ensures client.None? ==> r.None?
    ensures r.Some? ==> client.Some? && r.value in client.value && r.value in server && Supported(cfg, r.value)
    ensures client.Some? && serverPreference && (server != [] ==> !inGroup[|server| - 1]) ==>
              (r.None? <==> forall c :: c in server && c in client.value ==> !Supported(cfg, c))
    ensures client.Some? && serverPreference && r.Some? ==>
              exists i :: 0 <= i < |server| && server[i] == r.value && Best(cfg, server, inGroup, client.value, i)
    ensures client.Some? && !serverPreference ==>
              if r.None? then forall c :: c in client.value && c in server ==> !Supported(cfg, c)
              else forall k :: 0 <= k < Rank(client.value, r.value).value ==> !Usable(cfg, server, client.value[k])
  {
    hide Supported, Rank, Closed, Best;
    if client.None? {
      return None;
    }
    if serverPreference {
      r := Choose(cfg, server, Some(inGroup), client.value);
      LastCloses(inGroup);
      if r.Some? {
        ghost var i :| 0 <= i < |server| && server[i] == r.value && Best(cfg, server, inGroup, client.value, i);
        BestIsUsable(cfg, server, inGroup, client.value, i);
      }
    } else {
      r := Choose(cfg, client.value, None, server);
      AllClosed(client.value);
      if r.Some? {
        ghost var i :| 0 <= i < |client.value| && client.value[i] == r.value
                       && Best(cfg, client.value, Flags(client.value, None), server, i);
        BestIsUsable(cfg, client.value, Flags(client.value, None), server, i);
        FirstUsable(cfg, client.value, server, i);
      }
    }
  }

  lemma BestIsUsable(cfg: Config, prio: seq<Cipher>, inGroup: seq<bool>, allow: seq<Cipher>, i: nat)
    requires |inGroup| == |prio| && i < |prio| && Best(cfg, prio, inGroup, allow, i)
    ensures Usable(cfg, allow, prio[i]) && prio[i] in prio
  {
  }

  lemma AllClosed(prio: seq<Cipher>)
    ensures forall i: nat :: i < |prio| ==> Closed(Flags(prio, None), i)
  {
    forall i: nat | i < |prio| ensures Closed(Flags(prio, None), i) { assert !Flags(prio, None)[i]; }
  }

  lemma {:induction false} RankIsFirst(list: seq<Cipher>, i: nat)
    requires i < |list|
    ensures Rank(list, list[i]).value <= i
  {
    if i > 0 && list[0] != list[i] { RankIsFirst(list[1..], i - 1); }
  }

  lemma LastCloses(inGroup: seq<bool>)
    ensures inGroup != [] && !inGroup[|inGroup| - 1] ==> forall i: nat :: i < |inGroup| ==> Closed(inGroup, i)
  {
  }

  lemma FirstUsable(cfg: Config, prio: seq<Cipher>, allow: seq<Cipher>, i: nat)
    requires i < |prio| && Best(cfg, prio, Flags(prio, None), allow, i)
    ensures prio[i] in prio && forall k :: 0 <= k < Rank(prio, prio[i]).value ==> !Usable(cfg, allow, prio[k])
  {
    var inGroup := Flags(prio, None);
    var first := Rank(prio, prio[i]).value;
    RankIsFirst(prio, i);
    forall k | 0 <= k < first ensures !Usable(cfg, allow, prio[k]) {
      assert !inGroup[k];
      assert !SameGroup(inGroup, i, k);
    }
  }
}
