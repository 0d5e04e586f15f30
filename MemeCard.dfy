/**
  A meme card: the vote resolver (what a click on up or down does to the
  ledger), the score aggregator that rewrites the cached `vote_count`
  afterwards, and the way the score is shown.
 */
module MemeCard {
  import opened Schema
  import opened Store

  /** The ledger write a click turns into. */
  datatype LedgerOp = Insert(voteType: VoteType) | Update(voteType: VoteType) | Delete

  /** The vote a pair holds after its user clicks `requested`: clicking the
      direction already held clears it, any other click leaves `requested`. */
  function Toggled(existing: Option<VoteType>, requested: VoteType): Option<VoteType>
  {
    if existing == Some(requested) then None else Some(requested)
  }

  /** The decision table: no vote inserts, the same direction deletes, the
      opposite direction updates. */
  function Resolve(existing: Option<VoteType>, requested: VoteType): (op: LedgerOp)
    ensures op.Insert? <==> existing.None?
    ensures op.Delete? <==> existing == Some(requested)
    ensures op.Update? <==> existing.Some? && existing.value != requested
    ensures !op.Delete? ==> op.voteType == requested
  {
    match existing
    case None => Insert(requested)
    case Some(v) => if v == requested then Delete else Update(requested)
  }

  /** The write applied to the pair `k`. Update and delete are filtered by the
      row's id, so they do nothing when the row is missing; an insert is only
      issued when the lookup found no row. */
  function Apply(votes: Votes, k: VoteKey, op: LedgerOp): (r: Votes)
    requires op.Insert? ==> k !in votes
    ensures forall k' :: k' != k ==> Lookup(r, k') == Lookup(votes, k')
    ensures op.Delete? ==> k !in r
    ensures op.Insert? ==> Lookup(r, k) == Some(op.voteType) && |r| == |votes| + 1
    ensures op.Update? ==> Lookup(r, k) == (if k in votes then Some(op.voteType) else None) && |r| == |votes|
  {
    match op
    case Insert(t) => votes[k := t]
    case Update(t) => if k in votes then votes[k := t] else votes
    case Delete => votes - {k}
  }

  /** The ledger after one click of `requested` by the pair's user. */
  function Step(votes: Votes, k: VoteKey, requested: VoteType): (r: Votes)
    ensures Lookup(r, k) == Toggled(Lookup(votes, k), requested)
    ensures forall k' :: k' != k ==> Lookup(r, k') == Lookup(votes, k')
  {
    Apply(votes, k, Resolve(Lookup(votes, k), requested))
  }

  /** Resolving and applying the write does exactly the toggle: the pair ends
      up holding `Toggled(...)` and no other pair changes. */
  lemma StepIsToggle(votes: Votes, k: VoteKey, requested: VoteType)
    ensures Step(votes, k, requested) == Put(votes, k, Toggled(Lookup(votes, k), requested))
  {
    var after := Step(votes, k, requested);
    var expected := Put(votes, k, Toggled(Lookup(votes, k), requested));
    assert forall k' :: Lookup(after, k') == Lookup(expected, k');
    assert after.Keys == expected.Keys;
  }

  /** One click moves the net score of the clicked meme by the difference
      between the pair's new and old weight; no other meme's score moves. */
  lemma StepNet(votes: Votes, k: VoteKey, requested: VoteType, m: MemeId)
    ensures NetVotes(Step(votes, k, requested), m)
         == NetVotes(votes, m)
          + (if k.meme == m
             then Weight(Toggled(Lookup(votes, k), requested)) - Weight(Lookup(votes, k))
             else 0)
  {
    StepIsToggle(votes, k, requested);
    NetAfterPut(votes, k, Toggled(Lookup(votes, k), requested), m);
  }

  /** Clicking a direction twice from no vote leaves no vote: the ledger is
      back where it started. */
  lemma {:induction false} RepeatTogglesOff(votes: Votes, k: VoteKey, requested: VoteType)
    requires k !in votes
    ensures Lookup(Step(votes, k, requested), k) == Some(requested)
    ensures Step(Step(votes, k, requested), k, requested) == votes
  {
    var once := Step(votes, k, requested);
    StepIsToggle(votes, k, requested);
    StepIsToggle(once, k, requested);
    assert Step(once, k, requested) == once - {k};
    assert once - {k} == votes;
  }

  /** A third click restores what the first one did. */
  lemma ThirdClickRestores(votes: Votes, k: VoteKey, requested: VoteType)
    ensures Step(Step(Step(votes, k, requested), k, requested), k, requested)
         == Step(votes, k, requested)
  {
    var one := Step(votes, k, requested);
    var two := Step(one, k, requested);
    StepIsToggle(votes, k, requested);
    StepIsToggle(one, k, requested);
    StepIsToggle(two, k, requested);
    var three := Step(two, k, requested);
    assert forall k' :: Lookup(three, k') == Lookup(one, k');
    assert three.Keys == one.Keys;
  }

  /** Switching an up vote to down rewrites the same record (the ledger keeps
      its size and the pair now holds down) and swings the net score by -2. */
  lemma SwitchSwingsByTwo(votes: Votes, k: VoteKey)
    requires Lookup(votes, k) == Some(Up)
    ensures Lookup(Step(votes, k, Down), k) == Some(Down)
    ensures |Step(votes, k, Down)| == |votes|
    ensures NetVotes(Step(votes, k, Down), k.meme) == NetVotes(votes, k.meme) - 2
  {
    StepNet(votes, k, Down, k.meme);
    assert Step(votes, k, Down).Keys == votes.Keys;
  }

  /** The worked example on a meme `A` that users `U1` and `U2` have not voted
      on: U1 up, U2 up, U1 down, U1 down again move the net score by
      +1, +2, 0 and +1 relative to where it started. */
  lemma WorkedExample(v0: Votes)
    requires Lookup(v0, VoteKey("U1", "A")) == None
    requires Lookup(v0, VoteKey("U2", "A")) == None
    ensures var v1 := Step(v0, VoteKey("U1", "A"), Up);
            var v2 := Step(v1, VoteKey("U2", "A"), Up);
            var v3 := Step(v2, VoteKey("U1", "A"), Down);
            var v4 := Step(v3, VoteKey("U1", "A"), Down);
            && NetVotes(v1, "A") == NetVotes(v0, "A") + 1
            && NetVotes(v2, "A") == NetVotes(v0, "A") + 2
            && NetVotes(v3, "A") == NetVotes(v0, "A")
            && NetVotes(v4, "A") == NetVotes(v0, "A") + 1
  {
    var u1, u2 := VoteKey("U1", "A"), VoteKey("U2", "A");
    var v1 := Step(v0, u1, Up);
    StepNet(v0, u1, Up, "A");
    StepIsToggle(v0, u1, Up);
    var v2 := Step(v1, u2, Up);
    StepNet(v1, u2, Up, "A");
    StepIsToggle(v1, u2, Up);
    var v3 := Step(v2, u1, Down);
    StepNet(v2, u1, Down, "A");
    StepIsToggle(v2, u1, Down);
    StepNet(v3, u1, Down, "A");
  }

  /** What `handleVote` reports. */
  datatype VoteOutcome = SignInRequired | VoteRecorded

  /** The card's own state: the `voting` flag that disables its buttons. */
  class VoteButtons {
    var voting: bool

    constructor ()
      ensures !voting
    {
      voting := false;
    }

    /** `handleVote`: without a signed-in user nothing changes; otherwise the
        ledger takes one resolved step for (user, m) and `m`'s cached score is
        recomputed from the ledger, which keeps every cached score equal to
        its meme's net score. */
    method HandleVote(db: Database, user: Option<UserId>, m: MemeId, requested: VoteType)
      returns (outcome: VoteOutcome)
      requires db.Valid()
      requires m in db.memes
      modifies this, db
      ensures db.Valid()
      ensures outcome == if user.None? then SignInRequired else VoteRecorded
      ensures user.None? ==> db.votes == old(db.votes) && db.memes == old(db.memes) && voting == old(voting)
      ensures user.Some? ==>
        && db.votes == Step(old(db.votes), VoteKey(user.value, m), requested)
        && db.memes == old(db.memes)[m := old(db.memes)[m].(voteCount := NetVotes(db.votes, m))]
        && !voting
      ensures user.Some? ==>
        var before := Lookup(old(db.votes), VoteKey(user.value, m));
        db.memes[m].voteCount
          == old(db.memes)[m].voteCount + Weight(Toggled(before, requested)) - Weight(before)
    {
      if user.None? {
        return SignInRequired;
      }
      voting := true;
      var key := VoteKey(user.value, m);
      ghost var before := db.votes;
      var existing := Lookup(db.votes, key);
      match existing {
        case Some(v) =>
          if v == requested {
            db.DeleteVote(key);
          } else {
            db.UpdateVote(key, requested);
          }
        case None =>
          db.InsertVote(key, requested);
      }
      assert db.votes == Step(before, key, requested);
      var upvotes: int := Count(db.votes, m, Up);
      var downvotes: int := Count(db.votes, m, Down);
      db.SetVoteCount(m, upvotes - downvotes);
      outcome := VoteRecorded;
      voting := false;
      forall m' | m' in db.memes
        ensures db.memes[m'].voteCount == NetVotes(db.votes, m')
      {
        StepNet(before, key, requested, m');
      }
      StepNet(before, key, requested, m);
    }
  }

  /** The three colours of the score badge. */
  datatype Tone = Positive | Negative | Neutral

  /** The badge colour: green above zero, red below, grey at zero. */
  function ScoreTone(n: int): (t: Tone)
    ensures t == Positive <==> n > 0
    ensures t == Negative <==> n < 0
    ensures t == Neutral <==> n == 0
  {
    if n > 0 then Positive else if n < 0 then Negative else Neutral
  }

  function DigitChar(d: nat): (c: char)
    requires d < 10
    ensures '0' <= c <= '9'
  {
    "0123456789"[d]
  }

  function DigitValue(c: char): nat
  {
    if '0' <= c <= '9' then (c as int - '0' as int) else 0
  }

  /** The decimal digits of `n`, most significant first. */
  function Digits(n: nat): (s: string)
    ensures |s| > 0
    ensures forall i :: 0 <= i < |s| ==> '0' <= s[i] <= '9'
  {
    if n < 10 then [DigitChar(n)] else Digits(n / 10) + [DigitChar(n % 10)]
  }

  /** JavaScript's rendering of an integer: a minus sign, then digits. */
  function IntText(n: int): (s: string)
    ensures |s| > 0
    ensures s[0] == '-' <==> n < 0
    ensures forall i :: (if n < 0 then 1 else 0) <= i < |s| ==> '0' <= s[i] <= '9'
  {
    if n < 0 then "-" + Digits(-n) else Digits(n)
  }

  /** The score as shown: `'+'` before positive scores, nothing before the others. */
  function ScoreText(n: int): (s: string)
    ensures |s| > 0
    ensures s[0] == '+' <==> n > 0
    ensures s[0] == '-' <==> n < 0
  {
    (if n > 0 then "+" else "") + IntText(n)
  }

  /** Reads back the number of a decimal digit string. */
  function ParseDigits(s: string): nat
  {
    if s == [] then 0 else 10 * ParseDigits(s[..|s| - 1]) + DigitValue(s[|s| - 1])
  }

  /** Reads back a score text: an optional sign, then digits. */
  function ParseScore(s: string): int
  {
    if |s| > 0 && s[0] == '-' then -(ParseDigits(s[1..]) as int)
    else if |s| > 0 && s[0] == '+' then ParseDigits(s[1..])
    else ParseDigits(s)
  }

  lemma {:induction false} DigitsRoundTrip(n: nat)
    ensures ParseDigits(Digits(n)) == n
  {
    if n >= 10 {
      DigitsRoundTrip(n / 10);
      var s := Digits(n);
      assert s[..|s| - 1] == Digits(n / 10);
    }
  }

  /** The shown score reads back as the score itself: the sign prefix loses
      nothing. */
  lemma ScoreTextRoundTrip(n: int)
    ensures ParseScore(ScoreText(n)) == n
  {
    var s := ScoreText(n);
    var digits := Digits(if n < 0 then -n else n);
    DigitsRoundTrip(if n < 0 then -n else n);
    if n == 0 {
      assert s == digits;
    } else {
      assert s == [s[0]] + digits;
      assert s[1..] == digits;
    }
  }

  /** The badge colour and the sign of the text always agree. */
  lemma ToneMatchesSign(n: int)
    ensures ScoreTone(n) == Positive <==> ScoreText(n)[0] == '+'
    ensures ScoreTone(n) == Negative <==> ScoreText(n)[0] == '-'
    ensures ScoreTone(n) == Neutral <==> ScoreText(n) == "0"
  {
    if n == 0 {
      assert ScoreText(n) == "0";
    }
  }
}
