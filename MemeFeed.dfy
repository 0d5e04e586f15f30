/**
  The feed: all memes newest first, each labelled with its author's email or
  'Anonymous', and the signed-in user's own votes as a meme id -> direction
  dictionary.
 */
module MemeFeed {
  import opened Schema
  import opened Store

  /** What the identity service answers for each user id: an email. A user id
      it does not know, or a user without an email, is absent. */
  type Directory = map<UserId, string>

  const Anonymous: string := "Anonymous"

  /** The author label: the looked-up email when the row has a user id and the
      lookup gives a non-empty email, 'Anonymous' otherwise. */
  function AuthorLabel(userId: Option<UserId>, emails: Directory): (shown: string)
    ensures shown != ""
    ensures shown != Anonymous ==> Truthy(userId) && userId.value in emails && shown == emails[userId.value]
    ensures Truthy(userId) && userId.value in emails && emails[userId.value] != "" ==> shown == emails[userId.value]
  {
    if Truthy(userId) && userId.value in emails && emails[userId.value] != ""
    then emails[userId.value]
    else Anonymous
  }

  /** A query row together with its author label. */
  datatype FeedItem = FeedItem(meme: Meme, userEmail: string)

  /** Attaches the author label to each row of a query result, in order. */
  function Enrich(rows: seq<Meme>, emails: Directory): (items: seq<FeedItem>)
    ensures |items| == |rows|
    ensures forall i :: 0 <= i < |rows| ==>
      && items[i].meme == rows[i]
      && items[i].userEmail == AuthorLabel(rows[i].row.userId, emails)
  {
    if rows == [] then []
    else [FeedItem(rows[0], AuthorLabel(rows[0].row.userId, emails))] + Enrich(rows[1..], emails)
  }

  /** Whether meme `id` is among `rows`. */
  predicate Listed(rows: seq<Meme>, id: MemeId)
  {
    exists i :: 0 <= i < |rows| && rows[i].id == id
  }

  /** `rows` lists the table: each row is a table row, no id twice, every id once. */
  ghost predicate ListsTable(memes: map<MemeId, MemeRow>, rows: seq<Meme>)
  {
    && (forall i :: 0 <= i < |rows| ==> rows[i].id in memes && memes[rows[i].id] == rows[i].row)
    && (forall i, j :: 0 <= i < j < |rows| ==> rows[i].id != rows[j].id)
    && (forall id :: id in memes ==> Listed(rows, id))
  }

  ghost predicate NewestFirst(rows: seq<Meme>)
  {
    forall i, j :: 0 <= i < j < |rows| ==> rows[i].row.createdAt >= rows[j].row.createdAt
  }

  /** What `memes.select('*').order('created_at', descending)` returns: the
      whole table ordered by `created_at`, newest first; rows with equal
      timestamps may come in any order. */
  ghost predicate IsFeedQuery(memes: map<MemeId, MemeRow>, rows: seq<Meme>)
    ensures IsFeedQuery(memes, rows) ==> |rows| == |memes|
  {
    if ListsTable(memes, rows) && NewestFirst(rows) then
      FeedListsEveryMemeOnce(memes, rows);
      true
    else
      false
  }

  /** The set of ids of `rows`. */
  function Ids(rows: seq<Meme>): set<MemeId>
  {
    set i | 0 <= i < |rows| :: rows[i].id
  }

  /** Rows with pairwise distinct ids have as many ids as rows. */
  lemma {:induction false} DistinctIdsCount(rows: seq<Meme>)
    requires forall i, j :: 0 <= i < j < |rows| ==> rows[i].id != rows[j].id
    ensures |Ids(rows)| == |rows|
  {
    if rows != [] {
      var init := rows[..|rows| - 1];
      DistinctIdsCount(init);
      assert Ids(rows) == Ids(init) + {rows[|rows| - 1].id} by {
        forall i | 0 <= i < |init| ensures init[i] == rows[i] { }
      }
      assert rows[|rows| - 1].id !in Ids(init);
    }
  }

  /** A listing of the table has exactly one row per meme. */
  lemma FeedListsEveryMemeOnce(memes: map<MemeId, MemeRow>, rows: seq<Meme>)
    requires ListsTable(memes, rows)
    ensures |rows| == |memes|
  {
    DistinctIdsCount(rows);
    assert Ids(rows) == memes.Keys;
  }

  /** The head of the feed is the newest meme of the table. */
  lemma FeedStartsWithNewest(memes: map<MemeId, MemeRow>, rows: seq<Meme>)
    requires IsFeedQuery(memes, rows)
    requires memes != map[]
    ensures |rows| > 0
    ensures forall id :: id in memes ==> memes[id].createdAt <= rows[0].row.createdAt
  {
    var some :| some in memes;
    assert Listed(rows, some);
    forall id | id in memes
      ensures memes[id].createdAt <= rows[0].row.createdAt
    {
      assert Listed(rows, id);
      var i :| 0 <= i < |rows| && rows[i].id == id;
      assert memes[id] == rows[i].row;
    }
  }

  /** Enrichment keeps the order: the labelled feed is still newest first. */
  lemma EnrichKeepsOrder(rows: seq<Meme>, emails: Directory)
    requires NewestFirst(rows)
    ensures forall i, j :: 0 <= i < j < |rows| ==>
      Enrich(rows, emails)[i].meme.row.createdAt >= Enrich(rows, emails)[j].meme.row.createdAt
  {
    var items := Enrich(rows, emails);
    assert forall i :: 0 <= i < |rows| ==> items[i].meme == rows[i];
  }

  /** The dictionary the `forEach` writes: row by row in order, each row sets
      its meme's entry, so a later row for the same meme overwrites an earlier one. */
  function VotesMap(rows: seq<VoteRow>): map<MemeId, VoteType>
  {
    if rows == [] then map[]
    else VotesMap(rows[..|rows| - 1])[rows[|rows| - 1].memeId := rows[|rows| - 1].voteType]
  }

  /** Whether no row after index `i` is about the same meme as row `i`. */
  predicate LastFor(rows: seq<VoteRow>, i: int)
    requires 0 <= i < |rows|
  {
    forall j :: i < j < |rows| ==> rows[j].memeId != rows[i].memeId
  }

  /** The keys of the dictionary are exactly the meme ids of the rows. */
  lemma {:induction false} VotesMapKeys(rows: seq<VoteRow>)
    ensures VotesMap(rows).Keys == set i | 0 <= i < |rows| :: rows[i].memeId
  {
    if rows != [] {
      var init := rows[..|rows| - 1];
      VotesMapKeys(init);
      assert forall i :: 0 <= i < |init| ==> init[i] == rows[i];
      assert (set i | 0 <= i < |rows| :: rows[i].memeId)
          == (set i | 0 <= i < |init| :: init[i].memeId) + {rows[|rows| - 1].memeId};
    }
  }

  /** For repeated meme ids the last row wins. */
  lemma {:induction false} VotesMapLastWins(rows: seq<VoteRow>, i: int)
    requires 0 <= i < |rows| && LastFor(rows, i)
    ensures rows[i].memeId in VotesMap(rows)
    ensures VotesMap(rows)[rows[i].memeId] == rows[i].voteType
  {
    if i < |rows| - 1 {
      var init := rows[..|rows| - 1];
      assert LastFor(init, i) by {
        forall j | i < j < |init| ensures init[j].memeId != init[i].memeId {
          assert init[j] == rows[j];
        }
      }
      VotesMapLastWins(init, i);
    }
  }

  /** Every entry of the dictionary comes from some row. */
  lemma {:induction false} VotesMapFromRows(rows: seq<VoteRow>, m: MemeId)
    requires m in VotesMap(rows)
    ensures exists i :: 0 <= i < |rows| && rows[i].memeId == m && rows[i].voteType == VotesMap(rows)[m]
  {
    var last := rows[|rows| - 1];
    if last.memeId != m {
      var init := rows[..|rows| - 1];
      VotesMapFromRows(init, m);
      var i :| 0 <= i < |init| && init[i].memeId == m && init[i].voteType == VotesMap(init)[m];
      assert rows[i] == init[i];
    }
  }

  /** The `forEach` loop that fills `votesMap`. */
  method BuildVotesMap(rows: seq<VoteRow>) returns (votesMap: map<MemeId, VoteType>)
    ensures votesMap == VotesMap(rows)
    ensures votesMap.Keys == set i | 0 <= i < |rows| :: rows[i].memeId
    ensures forall i :: 0 <= i < |rows| && LastFor(rows, i) ==> votesMap[rows[i].memeId] == rows[i].voteType
  {
    votesMap := map[];
    for n := 0 to |rows|
      invariant votesMap == VotesMap(rows[..n])
    {
      assert rows[..n + 1][..n] == rows[..n];
      votesMap := votesMap[rows[n].memeId := rows[n].voteType];
    }
    assert rows[..|rows|] == rows;
    VotesMapKeys(rows);
    forall i | 0 <= i < |rows| && LastFor(rows, i)
      ensures votesMap[rows[i].memeId] == rows[i].voteType
    {
      VotesMapLastWins(rows, i);
    }
  }

  /** What `votes.select('meme_id, vote_type').eq('user_id', user)` returns:
      one row per vote of `user` in the ledger, in any order. */
  ghost predicate IsUserVotesQuery(votes: Votes, user: UserId, rows: seq<VoteRow>)
    ensures IsUserVotesQuery(votes, user, rows) ==>
      forall i :: 0 <= i < |rows| ==> VoteKey(user, rows[i].memeId) in votes
  {
    && (forall i :: 0 <= i < |rows| ==> Lookup(votes, VoteKey(user, rows[i].memeId)) == Some(rows[i].voteType))
    && (forall k :: k in votes && k.user == user ==> exists i :: 0 <= i < |rows| && rows[i].memeId == k.meme)
  }

  /** The dictionary built from the user's vote rows shows, for every meme,
      exactly the vote the ledger holds for (user, meme). */
  lemma VotesMapAgreesWithLedger(votes: Votes, user: UserId, rows: seq<VoteRow>)
    requires IsUserVotesQuery(votes, user, rows)
    ensures forall m :: Lookup(VotesMap(rows), m) == Lookup(votes, VoteKey(user, m))
  {
    VotesMapKeys(rows);
    forall m ensures Lookup(VotesMap(rows), m) == Lookup(votes, VoteKey(user, m)) {
      if m in VotesMap(rows) {
        VotesMapFromRows(rows, m);
      }
    }
  }

  /** The feed component's state. */
  class FeedView {
    var memes: seq<FeedItem>
    var userVotes: map<MemeId, VoteType>
    var loading: bool
    var refreshing: bool

    constructor ()
      ensures memes == [] && userVotes == map[] && loading && !refreshing
    {
      memes := [];
      userVotes := map[];
      loading := true;
      refreshing := false;
    }

    /** `fetchMemes`, given what the two queries and the identity service
        answered: the feed becomes the labelled query result, newest first;
        the vote dictionary is rebuilt only for a signed-in user, and then
        shows the ledger's vote for every meme; both flags are cleared. */
    method FetchMemes(db: Database, user: Option<UserId>, rows: seq<Meme>, emails: Directory,
                      userRows: seq<VoteRow>)
      requires IsFeedQuery(db.memes, rows)
      requires user.Some? ==> IsUserVotesQuery(db.votes, user.value, userRows)
      modifies this
      ensures memes == Enrich(rows, emails)
      ensures forall i, j :: 0 <= i < j < |memes| ==> memes[i].meme.row.createdAt >= memes[j].meme.row.createdAt
      ensures userVotes == if user.Some? then VotesMap(userRows) else old(userVotes)
      ensures user.Some? ==> forall m :: Lookup(userVotes, m) == Lookup(db.votes, VoteKey(user.value, m))
      ensures !loading && !refreshing
    {
      memes := Enrich(rows, emails);
      EnrichKeepsOrder(rows, emails);
      if user.Some? {
        var votesMap := BuildVotesMap(userRows);
        userVotes := votesMap;
        VotesMapAgreesWithLedger(db.votes, user.value, userRows);
      }
      loading := false;
      refreshing := false;
    }
  }
}
