/**
  The leaderboard: the five memes with the highest cached score, labelled
  like the feed, numbered from 1, with an achievement for the first three.
 */
module Leaderboard {
  import opened Schema
  import MemeCard
  import opened MemeFeed

  /** `.limit(5)`. */
  const TopCount: nat := 5

  /** What `memes.select('*').order('vote_count', descending).limit(n)`
      returns: min(n, table size) distinct table rows, highest score first,
      and no meme left out scores above one that was taken. Rows with equal
      scores may come in any order. */
  ghost predicate IsTopByVotes(memes: map<MemeId, MemeRow>, n: nat, rows: seq<Meme>)
    ensures IsTopByVotes(memes, n, rows) ==> |rows| <= n && |rows| <= |memes|
    ensures IsTopByVotes(memes, n, rows) ==> (rows == [] <==> n == 0 || memes == map[])
  {
    && |rows| == (if |memes| < n then |memes| else n)
    && (forall i :: 0 <= i < |rows| ==> rows[i].id in memes && memes[rows[i].id] == rows[i].row)
    && (forall i, j :: 0 <= i < j < |rows| ==> rows[i].id != rows[j].id)
    && (forall i, j :: 0 <= i < j < |rows| ==> rows[i].row.voteCount >= rows[j].row.voteCount)
    && (forall id, i :: id in memes && !Listed(rows, id) && 0 <= i < |rows| ==>
          memes[id].voteCount <= rows[i].row.voteCount)
  }

  /** The first entry holds the highest score of the whole table. */
  lemma TopHoldsMaximum(memes: map<MemeId, MemeRow>, n: nat, rows: seq<Meme>)
    requires IsTopByVotes(memes, n, rows)
    requires |rows| > 0
    ensures forall id :: id in memes ==> memes[id].voteCount <= rows[0].row.voteCount
  {
    forall id | id in memes
      ensures memes[id].voteCount <= rows[0].row.voteCount
    {
      if Listed(rows, id) {
        var i :| 0 <= i < |rows| && rows[i].id == id;
        assert memes[id] == rows[i].row;
      }
    }
  }

  /** Two memes tied on score may be listed in either order: the query gives
      no tie-break, so both [A, B] and [B, A] are correct answers for the top
      two of A (score 3), B (score 3, older) and C (score 1). */
  lemma TieOrderIsOpen()
    ensures var a := MemeRow("a", "https://a", None, 2, 3);
            var b := MemeRow("b", "https://b", None, 1, 3);
            var c := MemeRow("c", "https://c", None, 3, 1);
            var memes := map["A" := a, "B" := b, "C" := c];
            && IsTopByVotes(memes, 2, [Meme("A", a), Meme("B", b)])
            && IsTopByVotes(memes, 2, [Meme("B", b), Meme("A", a)])
  {
    var a := MemeRow("a", "https://a", None, 2, 3);
    var b := MemeRow("b", "https://b", None, 1, 3);
    var c := MemeRow("c", "https://c", None, 3, 1);
    var memes := map["A" := a, "B" := b, "C" := c];
    assert memes.Keys == {"A", "B", "C"};
    assert |memes| == 3;
    var ab, ba := [Meme("A", a), Meme("B", b)], [Meme("B", b), Meme("A", a)];
    forall id | id in memes && !Listed(ab, id)
      ensures id == "C"
    {
      assert ab[0].id == "A" && ab[1].id == "B";
    }
    forall id | id in memes && !Listed(ba, id)
      ensures id == "C"
    {
      assert ba[0].id == "B" && ba[1].id == "A";
    }
  }

  /** The achievement shown beside a position: only positions up to 3 get one. */
  function Achievement(position: int): (a: Option<string>)
    ensures a.Some? <==> position <= 3
    ensures position == 1 ==> a == Some("\U{1F947} Meme Champion")
    ensures position == 2 ==> a == Some("\U{1F948} Runner Up")
    ensures position == 3 ==> a == Some("\U{1F949} Bronze Medal")
  {
    if position <= 3 then
      Some(if position == 1 then "\U{1F947} Meme Champion"
           else if position == 2 then "\U{1F948} Runner Up"
           else "\U{1F949} Bronze Medal")
    else None
  }

  /** One leaderboard entry as shown. */
  datatype Standing = Standing(
    position: nat,
    item: FeedItem,
    score: string,
    tone: MemeCard.Tone,
    achievement: Option<string>)

  function StandingAt(item: FeedItem, position: nat): (s: Standing)
    ensures s.position == position && s.item == item
    ensures |s.score| > 0
    ensures s.score[0] == '+' <==> item.meme.row.voteCount > 0
    ensures s.tone == MemeCard.Positive <==> s.score[0] == '+'
    ensures s.score == MemeCard.ScoreText(item.meme.row.voteCount) + " votes"
    ensures s.tone == MemeCard.ScoreTone(item.meme.row.voteCount)
    ensures s.tone == MemeCard.Negative <==> item.meme.row.voteCount < 0
    ensures s.tone == MemeCard.Neutral <==> item.meme.row.voteCount == 0
    ensures s.achievement == Achievement(position)
    ensures s.achievement.Some? <==> position <= 3
  {
    var votes := item.meme.row.voteCount;
    MemeCard.ToneMatchesSign(votes);
    var text := MemeCard.ScoreText(votes);
    assert (text + " votes")[0] == text[0];
    Standing(position, item, text + " votes", MemeCard.ScoreTone(votes),
             Achievement(position))
  }

  /** Numbers the entries from `first` on, in order. */
  function StandingsFrom(items: seq<FeedItem>, first: nat): (r: seq<Standing>)
    ensures |r| == |items|
    ensures forall i :: 0 <= i < |items| ==> r[i] == StandingAt(items[i], first + i)
  {
    if items == [] then []
    else
      var rest := StandingsFrom(items[1..], first + 1);
      assert forall i :: 1 <= i < |items| ==> items[1..][i - 1] == items[i];
      [StandingAt(items[0], first)] + rest
  }

  /** `topMemes.map((meme, index) => ...)` with `position = index + 1`. */
  function Standings(items: seq<FeedItem>): (r: seq<Standing>)
    ensures |r| == |items|
    ensures forall i :: 0 <= i < |items| ==>
      && r[i].position == i + 1
      && r[i].item == items[i]
      && (r[i].achievement.Some? <==> i < 3)
    ensures forall i :: 0 <= i < |items| ==> r[i] == StandingAt(items[i], i + 1)
  {
    StandingsFrom(items, 1)
  }

  /** The leaderboard shown for a top-5 query result: min(5, table size)
      entries in score order, entry i at position i + 1 with the meme of
      row i, the score text signed by the score, and an achievement exactly
      for the first three; the first entry has the table's highest score. */
  lemma LeaderboardView(memes: map<MemeId, MemeRow>, rows: seq<Meme>, emails: Directory)
    requires IsTopByVotes(memes, TopCount, rows)
    ensures var board := Standings(Enrich(rows, emails));
      && |board| == (if |memes| < 5 then |memes| else 5)
      && (forall i :: 0 <= i < |board| ==>
            && board[i].position == i + 1
            && board[i].item.meme == rows[i]
            && board[i].item.userEmail == AuthorLabel(rows[i].row.userId, emails)
            && board[i].score == MemeCard.ScoreText(rows[i].row.voteCount) + " votes"
            && (board[i].score[0] == '+' <==> rows[i].row.voteCount > 0)
            && board[i].tone == MemeCard.ScoreTone(rows[i].row.voteCount)
            && board[i].achievement == Achievement(i + 1)
            && (board[i].achievement.Some? <==> i < 3))
      && (forall i, j :: 0 <= i < j < |board| ==>
            board[i].item.meme.row.voteCount >= board[j].item.meme.row.voteCount)
      && (|board| > 0 ==> forall id :: id in memes ==> memes[id].voteCount <= board[0].item.meme.row.voteCount)
  {
    var items := Enrich(rows, emails);
    var board := Standings(items);
    forall i | 0 <= i < |board|
      ensures board[i].score[0] == '+' <==> rows[i].row.voteCount > 0
    {
      var s := MemeCard.ScoreText(rows[i].row.voteCount);
      assert board[i].score == s + " votes";
      assert board[i].score[0] == s[0];
    }
    if |board| > 0 {
      TopHoldsMaximum(memes, TopCount, rows);
    }
  }
}
