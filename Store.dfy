/**
  The vote ledger and the cached net score.

  The `votes` table is a map from the pair (user, meme) to the direction of
  that user's vote, so at most one vote per pair exists by construction. The
  `memes` table is a map from meme id to its row; its `vote_count` column is
  the cached score. `Database` holds both tables and offers the row-level
  reads and writes that the components issue against them.
 */
module Store {
  import opened Schema

  type Votes = map<VoteKey, VoteType>

  /** The entry of `k`, or None when there is none: the vote a pair holds, as
      `.select(...).eq(...).single()` finds it, and `userVotes[meme.id] || null`. */
  function Lookup<K, V>(m: map<K, V>, k: K): (r: Option<V>)
    ensures r.Some? <==> k in m
    ensures r.Some? ==> m[k] == r.value
  {
    if k in m then Some(m[k]) else None
  }

  /** The ledger with the pair's vote set to `v`, or removed when `v` is None. */
  function Put(votes: Votes, k: VoteKey, v: Option<VoteType>): (r: Votes)
    ensures Lookup(r, k) == v
    ensures forall k' :: k' != k ==> Lookup(r, k') == Lookup(votes, k')
  {
    match v
    case None => votes - {k}
    case Some(t) => votes[k := t]
  }

  /** The votes of direction `t` cast on meme `m`. */
  function VotesOn(votes: Votes, m: MemeId, t: VoteType): set<VoteKey>
  {
    set k | k in votes && k.meme == m && votes[k] == t
  }

  /** A subset is no larger than the set that holds it. */
  lemma {:induction false} SubsetCardinality<T>(a: set<T>, b: set<T>)
    requires a <= b
    ensures |a| <= |b|
  {
    if a != {} {
      var x :| x in a;
      SubsetCardinality(a - {x}, b - {x});
    }
  }

  /** How many votes of direction `t` meme `m` has (`filter(...).length`). */
  function Count(votes: Votes, m: MemeId, t: VoteType): (c: nat)
    ensures c <= |votes|
    ensures c == 0 <==> forall k :: k in votes && k.meme == m ==> votes[k] != t
  {
    SubsetCardinality(VotesOn(votes, m, t), votes.Keys);
    assert forall k :: k in votes && k.meme == m && votes[k] == t ==> k in VotesOn(votes, m, t);
    |VotesOn(votes, m, t)|
  }

  /** The net score of `m`: its up votes minus its down votes. */
  function NetVotes(votes: Votes, m: MemeId): (n: int)
    ensures -|votes| <= n <= |votes|
    ensures (forall k :: k in votes && k.meme == m ==> votes[k] == Up) ==> n >= 0
    ensures (forall k :: k in votes && k.meme == m ==> votes[k] == Down) ==> n <= 0
  {
    Count(votes, m, Up) - Count(votes, m, Down)
  }

  /** What one pair's vote contributes to a net score. */
  function Weight(v: Option<VoteType>): int
  {
    match v
    case None => 0
    case Some(Up) => 1
    case Some(Down) => -1
  }

  /** Counting with one pair set aside: the pair adds one exactly when it
      holds a `t` vote on `m`. */
  lemma CountWithout(votes: Votes, k: VoteKey, m: MemeId, t: VoteType)
    ensures Count(votes, m, t)
         == Count(votes - {k}, m, t) + (if k.meme == m && Lookup(votes, k) == Some(t) then 1 else 0)
  {
    var all, rest := VotesOn(votes, m, t), VotesOn(votes - {k}, m, t);
    assert Count(votes, m, t) == |all| && Count(votes - {k}, m, t) == |rest|;
    assert k !in rest;
    if k.meme == m && Lookup(votes, k) == Some(t) {
      assert all == rest + {k};
    } else {
      assert all == rest;
    }
  }

  /** Changing one pair's vote moves the net score of that pair's meme by the
      difference of the two weights, and leaves every other meme's net score
      as it was. */
  lemma NetAfterPut(votes: Votes, k: VoteKey, v: Option<VoteType>, m: MemeId)
    ensures NetVotes(Put(votes, k, v), m)
         == NetVotes(votes, m) + (if k.meme == m then Weight(v) - Weight(Lookup(votes, k)) else 0)
  {
    var after := Put(votes, k, v);
    assert after - {k} == votes - {k};
    CountWithout(votes, k, m, Up);
    CountWithout(votes, k, m, Down);
    CountWithout(after, k, m, Up);
    CountWithout(after, k, m, Down);
  }

  /** A meme nobody has voted on has net score zero. */
  lemma NetWithoutVotes(votes: Votes, m: MemeId)
    requires forall k :: k in votes ==> k.meme != m
    ensures NetVotes(votes, m) == 0
  {
    assert VotesOn(votes, m, Up) == {};
    assert VotesOn(votes, m, Down) == {};
  }

  /** The two tables. */
  class Database {
    var memes: map<MemeId, MemeRow>
    var votes: Votes

    /** Every vote refers to an existing meme, and every meme's cached
        `vote_count` equals its net score over the ledger. */
    ghost predicate Valid()
      reads this
      ensures Valid() ==> forall m :: m !in memes ==> NetVotes(votes, m) == 0
    {
      && (forall k :: k in votes ==> k.meme in memes)
      && (forall m :: m in memes ==> memes[m].voteCount == NetVotes(votes, m))
    }

    constructor ()
      ensures Valid()
      ensures memes == map[] && votes == map[]
    {
      memes := map[];
      votes := map[];
    }

    /** `votes.insert({user_id, meme_id, vote_type})`. */
    method InsertVote(k: VoteKey, t: VoteType)
      requires k !in votes
      modifies this
      ensures votes == old(votes)[k := t]
      ensures memes == old(memes)
    {
      votes := votes[k := t];
    }

    /** `votes.update({vote_type}).eq('id', ...)`: rewrites the pair's row if it exists. */
    method UpdateVote(k: VoteKey, t: VoteType)
      modifies this
      ensures votes == if k in old(votes) then old(votes)[k := t] else old(votes)
      ensures memes == old(memes)
    {
      if k in votes {
        votes := votes[k := t];
      }
    }

    /** `votes.delete().eq('id', ...)`: removes the pair's row if it exists. */
    method DeleteVote(k: VoteKey)
      modifies this
      ensures votes == old(votes) - {k}
      ensures memes == old(memes)
    {
      votes := votes - {k};
    }

    /** `memes.update({vote_count}).eq('id', m)`: rewrites one row's cached
        score if the row exists. */
    method SetVoteCount(m: MemeId, n: int)
      modifies this
      ensures memes == if m in old(memes) then old(memes)[m := old(memes)[m].(voteCount := n)] else old(memes)
      ensures votes == old(votes)
    {
      if m in memes {
        memes := memes[m := memes[m].(voteCount := n)];
      }
    }

    /** `memes.insert({title, image_url, user_id})`. The table's defaults
        supply `id` (here `newId`), `created_at` (here `now`) and
        `vote_count = 0`; an id that is already taken makes the insert fail. */
    method InsertMeme(newId: MemeId, title: string, imageUrl: string, userId: UserId, now: nat)
      returns (ok: bool)
      requires Valid()
      modifies this
      ensures Valid()
      ensures ok <==> newId !in old(memes)
      ensures memes == if ok then old(memes)[newId := MemeRow(title, imageUrl, Some(userId), now, 0)] else old(memes)
      ensures votes == old(votes)
    {
      if newId in memes {
        return false;
      }
      NetWithoutVotes(votes, newId);
      memes := memes[newId := MemeRow(title, imageUrl, Some(userId), now, 0)];
      ok := true;
    }
  }
}
