/** Mutual exclusion groups: among the enabled flags of a group, one wins each user. */
module MutexGroups {
  import opened Bytes
  import opened Domain
  import opened Murmur

  predicate Competes(rs: Ruleset, group: ByteString, key: Key) {
    && key in rs.flags && rs.flags[key].mutualExclusionGroup == group
    && key in rs.states && rs.states[key].enabled
  }

  /** A lower bucket wins, and the smaller key on equal buckets. */
  predicate Beats(user: Key, a: Key, b: Key) {
    Bucket(a, user) < Bucket(b, user) || (Bucket(a, user) == Bucket(b, user) && Less(a, b))
  }

  ghost predicate Wins(rs: Ruleset, group: ByteString, user: Key, key: Key) {
    forall other | Competes(rs, group, other) && other != key :: !Beats(user, other, key)
  }

  lemma BeatsIsTransitive(user: Key, a: Key, b: Key, c: Key)
    requires Beats(user, a, b) && Beats(user, b, c)
    ensures Beats(user, a, c)
  {
    hide Bucket;
    if Less(a, b) && Less(b, c) {
      LessIsTransitive(a, b, c);
    }
  }

  lemma BeatsIsTotal(user: Key, a: Key, b: Key)
    requires a != b
    ensures Beats(user, a, b) <==> !Beats(user, b, a)
  {
    hide Bucket;
    LessIsTotal(a, b);
    if Less(a, b) {
      LessIsAsymmetric(a, b);
    }
    if Less(b, a) {
      LessIsAsymmetric(b, a);
    }
  }

  /** The scan of the flags map; the order in which it visits them is arbitrary. */
  method WinsMutexGroup(flagKey: Key, group: ByteString, ctx: EvalContext, rs: Ruleset) returns (r: bool)
    ensures r == Wins(rs, group, ctx.key, flagKey)
    ensures r <==> forall other | other in rs.flags && other in rs.states && other != flagKey
                     && rs.flags[other].mutualExclusionGroup == group && rs.states[other].enabled ::
                     && Bucket(flagKey, ctx.key) <= Bucket(other, ctx.key)
                     && (Bucket(flagKey, ctx.key) == Bucket(other, ctx.key) ==> Less(flagKey, other))
  {
    hide Bucket;
    var winnerKey := flagKey;
    var winnerBucket := BucketUser(flagKey, ctx.key);
    var rest := rs.flags.Keys;
    while rest != {}
      invariant rest <= rs.flags.Keys
      invariant winnerBucket == Bucket(winnerKey, ctx.key)
      invariant winnerKey == flagKey ==>
                  forall other | other !in rest && Competes(rs, group, other) && other != flagKey ::
                    !Beats(ctx.key, other, flagKey)
      invariant winnerKey != flagKey ==>
                  Competes(rs, group, winnerKey) && Beats(ctx.key, winnerKey, flagKey)
    {
      var key :| key in rest;
      rest := rest - {key};
      if key == flagKey || rs.flags[key].mutualExclusionGroup != group {
        continue;
      }
      if key !in rs.states || !rs.states[key].enabled {
        continue;
      }
      var bucket := BucketUser(key, ctx.key);
      if bucket < winnerBucket || (bucket == winnerBucket && Less(key, winnerKey)) {
        if winnerKey != flagKey {
          BeatsIsTransitive(ctx.key, key, winnerKey, flagKey);
        }
        winnerKey := key;
        winnerBucket := bucket;
      }
    }
    forall other | other != flagKey
      ensures !Beats(ctx.key, other, flagKey) <==>
                && Bucket(flagKey, ctx.key) <= Bucket(other, ctx.key)
                && (Bucket(flagKey, ctx.key) == Bucket(other, ctx.key) ==> Less(flagKey, other))
    {
      BeatsIsTotal(ctx.key, flagKey, other);
    }
    return winnerKey == flagKey;
  }

  // ---------------------------------------------------------------------------
  // One winner
  // ---------------------------------------------------------------------------

  lemma {:induction false} SomeoneWins(keys: set<Key>, user: Key) returns (winner: Key)
    requires keys != {}
    ensures winner in keys && forall other | other in keys && other != winner :: !Beats(user, other, winner)
  {
    hide Bucket;
    var key :| key in keys;
    winner := key;
    var rest := keys - {key};
    if rest == {} {
      assert keys == {key};
    } else {
      var best := SomeoneWins(rest, user);
      BeatsIsTotal(user, key, best);
      if Beats(user, best, key) {
        winner := best;
      } else {
        forall other | other in keys && other != key
          ensures !Beats(user, other, key)
        {
          if other != best && Beats(user, other, key) {
            BeatsIsTransitive(user, other, key, best);
          }
        }
      }
    }
  }

  ghost predicate OnlyWinner(rs: Ruleset, group: ByteString, user: Key, winner: Key) {
    && Competes(rs, group, winner)
    && forall key | Competes(rs, group, key) :: Wins(rs, group, user, key) <==> key == winner
  }

  /** A group with an enabled flag has exactly one winner for each user. */
  lemma ExactlyOneWinner(rs: Ruleset, group: ByteString, user: Key)
    requires exists key :: Competes(rs, group, key)
    ensures exists winner :: OnlyWinner(rs, group, user, winner)
  {
    hide Bucket;
    var keys := set key | key in rs.flags && Competes(rs, group, key);
    var someone :| Competes(rs, group, someone);
    assert someone in keys;
    var winner := SomeoneWins(keys, user);
    assert Competes(rs, group, winner);
    forall key | Competes(rs, group, key)
      ensures Wins(rs, group, user, key) <==> key == winner
    {
      if key != winner {
        BeatsIsTotal(user, key, winner);
      }
    }
    assert OnlyWinner(rs, group, user, winner);
  }

  function Disable(rs: Ruleset, key: Key): Ruleset
    requires key in rs.states
  {
    rs.(states := rs.states[key := rs.states[key].(enabled := false)])
  }

  /** Disabling a flag that loses leaves every other flag of the group where it was. */
  lemma DisablingLoserChangesNothing(rs: Ruleset, group: ByteString, user: Key, loser: Key, key: Key)
    requires Competes(rs, group, loser) && !Wins(rs, group, user, loser)
    requires Competes(rs, group, key) && key != loser
    ensures Competes(Disable(rs, loser), group, key)
    ensures Wins(Disable(rs, loser), group, user, key) <==> Wins(rs, group, user, key)
  {
    hide Bucket;
    var after := Disable(rs, loser);
    assert forall k :: Competes(after, group, k) <==> Competes(rs, group, k) && k != loser;
    if Wins(after, group, user, key) {
      ExactlyOneWinner(rs, group, user);
      var winner :| OnlyWinner(rs, group, user, winner);
      assert Wins(rs, group, user, winner) && winner != loser;
      if winner != key {
        BeatsIsTotal(user, key, winner);
      }
    }
  }
}
