/**
  The server's choice of a cipher suite among equal-preference groups (section 7.4.1.3 of RFC 5246
  leaves the choice to the server).
 */
module CipherChoice {
  import opened Words

  datatype Cipher = Cipher(id: nat, minVersion: nat, maxVersion: nat, mkey: bv32, auth: bv32)

  /** What the server can use: the protocol version, key exchanges and authentications. */
  datatype Config = Config(version: nat, maskK: bv32, maskA: bv32)

  predicate Usable(c: Cipher, config: Config)
  {
    c.minVersion <= config.version <= c.maxVersion && Meets(c.mkey, config.maskK) && Meets(c.auth, config.maskA)
  }

  /** Two masks have a bit in common. */
  predicate Meets(a: bv32, b: bv32) { a & b != 0 }

  lemma {:induction false} OneBitMeets(b: bv32)
    ensures Meets(1, b) <==> b % 2 == 1
    ensures Meets(b, 0) == Meets(0, b) == false
  {}

  /** sk_SSL_CIPHER_find: the first place of a cipher in a list, |list| if it is not there. */
  function Place(list: seq<Cipher>, c: Cipher): (i: nat)
    ensures i <= |list| && (c in list <==> i < |list|) && (i < |list| ==> list[i] == c)
  {
    if list == [] || list[0] == c then 0 else 1 + Place(list[1..], c)
  }

  /** in_group_flags: whether more of the group follows. Without flags every cipher is its own group. */
  predicate InGroup(flags: Option<seq<byte>>, i: nat)
  {
    flags.Some? && i < |flags.value| && flags.value[i] == 1
  }

  ghost predicate SameGroup(flags: Option<seq<byte>>, i: nat, j: nat)
  {
    forall k: nat :: (i <= k < j || j <= k < i) ==> InGroup(flags, k)
  }

  predicate Candidate(prio: seq<Cipher>, allow: seq<Cipher>, config: Config, i: nat)
  {
    i < |prio| && Usable(prio[i], config) && prio[i] in allow
  }

  /** The group of i has a last element. */
  ghost predicate Closed(flags: Option<seq<byte>>, n: nat, i: nat)
  {
    exists e: nat :: i <= e < n && !InGroup(flags, e)
  }

  /** Candidate i comes from the first group that has any, and the other side lists it before the others there. */
  ghost predicate Chosen(prio: seq<Cipher>, flags: Option<seq<byte>>, allow: seq<Cipher>, config: Config, i: nat)
  {
    && Candidate(prio, allow, config, i) && Closed(flags, |prio|, i)
    && (forall j: nat :: Candidate(prio, allow, config, j) ==>
          if SameGroup(flags, i, j) then Place(allow, prio[i]) <= Place(allow, prio[j]) else i < j)
  }

  /** The best candidate of the group that starts at `start`, among those before i. */
  ghost predicate Best(prio: seq<Cipher>, allow: seq<Cipher>, config: Config, start: nat, i: nat, groupMin: int)
  {
    if groupMin == -1 then forall j: nat :: start <= j < i ==> !Candidate(prio, allow, config, j)
    else
      && 0 <= groupMin < |allow|
      && (exists j: nat :: start <= j < i && Candidate(prio, allow, config, j) && Place(allow, prio[j]) == groupMin)
      && (forall j: nat :: start <= j < i && Candidate(prio, allow, config, j) ==> groupMin <= Place(allow, prio[j]))
  }

  /** The loop of ssl3_choose_cipher: one pass, keeping the best place found in the group so far. */
  method ChooseAmong(prio: seq<Cipher>, flags: Option<seq<byte>>, allow: seq<Cipher>, config: Config) returns (r: Option<Cipher>)
    requires flags.Some? ==> |flags.value| == |prio| && forall k :: 0 <= k < |prio| ==> flags.value[k] <= 1
    ensures r.Some? ==> exists i: nat :: Chosen(prio, flags, allow, config, i) && r.value == prio[i]
    ensures r.None? <==> forall i: nat :: Candidate(prio, allow, config, i) ==> !Closed(flags, |prio|, i)
  {
    hide Usable;
    var groupMin := -1;
    ghost var start: nat := 0;
    var i := 0;
    while i < |prio|
      invariant start <= i <= |prio|
      invariant forall j: nat :: j < start ==> !Candidate(prio, allow, config, j)
      invariant start > 0 ==> !InGroup(flags, start - 1)
      invariant forall k: nat :: start <= k < i ==> InGroup(flags, k)
      invariant Best(prio, allow, config, start, i, groupMin) && (flags.None? ==> groupMin == -1)
    {
      var c := prio[i];
      if Usable(c, config) && c in allow {
        var cipherIndex := Place(allow, c);
        assert Candidate(prio, allow, config, i);
        if flags.Some? && flags.value[i] == 1 {
          if groupMin == -1 || groupMin > cipherIndex {
            groupMin := cipherIndex;
          }
        } else {
          if groupMin != -1 && groupMin < cipherIndex {
            cipherIndex := groupMin;
          }
          assert !InGroup(flags, i);
          assert Best(prio, allow, config, start, i + 1, cipherIndex);
          BestIsChosen(prio, flags, allow, config, start, i, cipherIndex);
          return Some(allow[cipherIndex]);
        }
      }
      if flags.Some? && flags.value[i] == 0 && groupMin != -1 {
        assert !InGroup(flags, i);
        BestIsChosen(prio, flags, allow, config, start, i, groupMin);
        return Some(allow[groupMin]);
      }
      if !InGroup(flags, i) {
        assert groupMin == -1 && !Candidate(prio, allow, config, i);
        start := i + 1;
      }
      i := i + 1;
    }
    forall j: nat | Candidate(prio, allow, config, j) ensures !Closed(flags, |prio|, j) {}
    return None;
  }

  /** The best candidate of the group from start to e is the one to choose if no group before has any. */
  lemma {:induction false} BestIsChosen(prio: seq<Cipher>, flags: Option<seq<byte>>, allow: seq<Cipher>, config: Config, start: nat, e: nat, best: nat)
    requires start <= e < |prio| && !InGroup(flags, e) && (start > 0 ==> !InGroup(flags, start - 1))
    requires forall k: nat :: start <= k < e ==> InGroup(flags, k)
    requires forall j: nat :: j < start ==> !Candidate(prio, allow, config, j)
    requires Best(prio, allow, config, start, e + 1, best)
    ensures best < |allow| && exists i: nat :: Chosen(prio, flags, allow, config, i) && allow[best] == prio[i]
    ensures !forall i: nat :: Candidate(prio, allow, config, i) ==> !Closed(flags, |prio|, i)
  {
    hide Usable;
    var i: nat :| start <= i < e + 1 && Candidate(prio, allow, config, i) && Place(allow, prio[i]) == best;
    assert Closed(flags, |prio|, i);
    forall j: nat | Candidate(prio, allow, config, j)
      ensures if SameGroup(flags, i, j) then Place(allow, prio[i]) <= Place(allow, prio[j]) else i < j
    {
      if j <= e {
        assert SameGroup(flags, i, j);
      } else {
        assert !SameGroup(flags, i, j) by { assert i <= e < j; }
      }
    }
    assert Chosen(prio, flags, allow, config, i);
  }

  /** The choice is determined: the method has no freedom left. */
  lemma {:induction false} ChoiceUnique(prio: seq<Cipher>, flags: Option<seq<byte>>, allow: seq<Cipher>, config: Config, i: nat, j: nat)
    requires Chosen(prio, flags, allow, config, i) && Chosen(prio, flags, allow, config, j)
    ensures prio[i] == prio[j]
  {
    hide Usable;
    assert SameGroup(flags, i, j) <==> SameGroup(flags, j, i);
  }

  /** With a list that ends its last group, every usable shared cipher counts. */
  lemma {:induction false} AllClosed(prio: seq<Cipher>, flags: Option<seq<byte>>, i: nat)
    requires i < |prio| && !InGroup(flags, |prio| - 1)
    ensures Closed(flags, |prio|, i)
  {}

  /** A cipher is chosen exactly if some usable shared cipher is in a group that ends. */
  lemma {:induction false} ChosenExactly(prio: seq<Cipher>, flags: Option<seq<byte>>, allow: seq<Cipher>, config: Config)
    ensures (exists i: nat :: Chosen(prio, flags, allow, config, i))
            <==> exists i: nat :: Candidate(prio, allow, config, i) && Closed(flags, |prio|, i)
  {
    hide Usable;
    if exists i: nat :: Candidate(prio, allow, config, i) && Closed(flags, |prio|, i) {
      var i: nat :| Candidate(prio, allow, config, i) && Closed(flags, |prio|, i);
      SomeChosen(prio, flags, allow, config, 0, 0, -1, i);
    }
  }

  /** From a point of the pass at which candidate c is still to be settled, one is chosen. */
  lemma {:induction false} SomeChosen(prio: seq<Cipher>, flags: Option<seq<byte>>, allow: seq<Cipher>, config: Config,
                                      start: nat, i: nat, groupMin: int, c: nat)
    requires start <= i <= |prio| && (start > 0 ==> !InGroup(flags, start - 1)) && Best(prio, allow, config, start, i, groupMin)
    requires forall j: nat :: j < start ==> !Candidate(prio, allow, config, j)
    requires forall k: nat :: start <= k < i ==> InGroup(flags, k)
    requires Candidate(prio, allow, config, c) && Closed(flags, |prio|, c)
    ensures exists k: nat :: Chosen(prio, flags, allow, config, k)
    decreases |prio| - i
  {
    hide Usable;
    if i == |prio| {
      assert false;
    }
    var place := if Candidate(prio, allow, config, i) then Place(allow, prio[i]) else -1;
    var best := if groupMin == -1 || (place != -1 && place < groupMin) then place else groupMin;
    assert Best(prio, allow, config, start, i + 1, best);
    if InGroup(flags, i) {
      SomeChosen(prio, flags, allow, config, start, i + 1, best, c);
    } else if best != -1 {
      BestIsChosen(prio, flags, allow, config, start, i, best);
    } else {
      assert forall j: nat :: j < i + 1 ==> !Candidate(prio, allow, config, j);
      SomeChosen(prio, flags, allow, config, i + 1, i + 1, -1, c);
    }
  }

  /** A list that leaves its last group open: a usable shared cipher is there, and none is chosen. */
  lemma {:induction false} OpenGroupIgnored(c: Cipher, config: Config)
    requires Usable(c, config)
    ensures Candidate([c], [c], config, 0) && forall i: nat :: !Chosen([c], Some([1]), [c], config, i)
  {
    forall i: nat ensures !Chosen([c], Some([1]), [c], config, i) {
      if Candidate([c], [c], config, i) { assert !Closed(Some([1]), 1, i); }
    }
  }

  /** ssl3_choose_cipher, after the client's list was parsed. */
  method ChooseCipher(serverPreference: bool, serverCiphers: seq<Cipher>, inGroupFlags: seq<byte>, client: seq<Cipher>, config: Config)
      returns (r: Option<Cipher>)
    requires |inGroupFlags| == |serverCiphers| && forall k :: 0 <= k < |inGroupFlags| ==> inGroupFlags[k] <= 1
    ensures r.Some? ==>
              var c := r.value;
              && c in serverCiphers && c in client && c.minVersion <= config.version <= c.maxVersion
              && Meets(c.mkey, config.maskK) && Meets(c.auth, config.maskA)
    ensures r.None? && (!serverPreference || serverCiphers == [] || inGroupFlags[|serverCiphers| - 1] == 0) ==>
              forall c :: c in serverCiphers && c in client && c.minVersion <= config.version <= c.maxVersion ==>
                            !Meets(c.mkey, config.maskK) || !Meets(c.auth, config.maskA)
    ensures serverPreference && r.Some? ==> exists i: nat :: Chosen(serverCiphers, Some(inGroupFlags), client, config, i) && r.value == serverCiphers[i]
    ensures serverPreference && (serverCiphers == [] || inGroupFlags[|serverCiphers| - 1] == 0) ==>
              (r.None? <==> forall i: nat :: !Candidate(serverCiphers, client, config, i))
    ensures !serverPreference ==>
              match r
              case None => forall i: nat :: !Candidate(client, serverCiphers, config, i)
              case Some(c) => exists i: nat :: Candidate(client, serverCiphers, config, i) && c == client[i]
                                && forall j: nat :: Candidate(client, serverCiphers, config, j) ==> i <= j
  {
    hide Usable, Candidate, Best, Meets;
    if serverPreference {
      r := ChooseAmong(serverCiphers, Some(inGroupFlags), client, config);
      if serverCiphers == [] || inGroupFlags[|serverCiphers| - 1] == 0 {
        forall i: nat | Candidate(serverCiphers, client, config, i) ensures Closed(Some(inGroupFlags), |serverCiphers|, i) {
          CandidateInList(serverCiphers, client, config, i);
          AllClosed(serverCiphers, Some(inGroupFlags), i);
        }
      }
    } else {
      r := ChooseAmong(client, None, serverCiphers, config);
      forall i: nat | Candidate(client, serverCiphers, config, i) ensures Closed(None, |client|, i) {
        CandidateInList(client, serverCiphers, config, i);
        AllClosed(client, None, i);
      }
      if r.Some? {
        ghost var i: nat :| Chosen(client, None, serverCiphers, config, i) && r.value == client[i];
        forall j: nat | Candidate(client, serverCiphers, config, j) ensures i <= j {
          if i != j { NoGroups(i, j); }
        }
      }
    }
    if r.Some? {
      if serverPreference {
        ghost var i: nat :| Chosen(serverCiphers, Some(inGroupFlags), client, config, i) && r.value == serverCiphers[i];
        ByFields(serverCiphers, client, config, i);
      } else {
        ghost var i: nat :| Candidate(client, serverCiphers, config, i) && r.value == client[i];
        ByFields(client, serverCiphers, config, i);
      }
    } else if !serverPreference || serverCiphers == [] || inGroupFlags[|serverCiphers| - 1] == 0 {
      forall c | c in serverCiphers && c in client && c.minVersion <= config.version <= c.maxVersion
        ensures !Meets(c.mkey, config.maskK) || !Meets(c.auth, config.maskA)
      {
        ByFields(serverCiphers, client, config, Place(serverCiphers, c));
        ByFields(client, serverCiphers, config, Place(client, c));
      }
    }
  }

  /** What makes a cipher a candidate, field by field. */
  lemma {:induction false} ByFields(prio: seq<Cipher>, allow: seq<Cipher>, config: Config, i: nat)
    ensures Candidate(prio, allow, config, i) <==>
            && i < |prio| && prio[i] in allow && prio[i].minVersion <= config.version <= prio[i].maxVersion
            && Meets(prio[i].mkey, config.maskK) && Meets(prio[i].auth, config.maskA)
  {
    hide Meets;
  }

  /** Without flags every cipher is a group of its own. */
  lemma {:induction false} NoGroups(i: nat, j: nat)
    requires i != j
    ensures !SameGroup(None, i, j)
  {
    assert !InGroup(None, if i < j then i else j);
  }

  lemma {:induction false} CandidateInList(prio: seq<Cipher>, allow: seq<Cipher>, config: Config, i: nat)
    requires Candidate(prio, allow, config, i)
    ensures i < |prio|
  {}
}
