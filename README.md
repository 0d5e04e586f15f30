# Meme app: vote ledger, cached net score, feed and leaderboard

A model of the voting core of a small meme-sharing web application. Users post
memes (a title and an image URL). Each signed-in user can hold one vote, up or
down, per meme. Clicking the direction already held removes the vote, and
clicking the other direction switches it. After every click the meme's cached
`vote_count` is recomputed as up votes minus down votes. The feed lists all
memes newest first. The leaderboard shows the five highest-scoring memes.

The two database tables are maps held by the class `Store.Database`:

- `votes` is a map from the pair (user, meme) to `Up | Down`, so at most one vote per pair exists by construction.
- `memes` is a map from meme id to its row.

`Database.Valid()` is the invariant that every component keeps:

- every vote refers to an existing meme;
- every meme's `vote_count` equals its net score over the ledger.

Modules, one per source file, plus `Store` for the two tables:

- `Schema` (`lib/supabase.ts`): the record shapes of the two tables.
- `Store`: the ledger functions (`Lookup`, `Put`, `Count`, `NetVotes`), the lemmas about how one write moves a net score, and the `Database` class with the row-level writes the components issue.
- `MemeCard` (`components/MemeCard.tsx`):
  - the vote resolver (`Resolve`) and the ledger step (`Step`);
  - the imperative `HandleVote` on the card's state (`VoteButtons`);
  - the score text and colour.
- `MemeFeed` (`components/MemeFeed.tsx`):
  - the feed ordering specification and the author-label enrichment;
  - the vote dictionary, both as a fold (`VotesMap`) and as the loop that builds it (`BuildVotesMap`);
  - the feed component's `FetchMemes`.
- `Leaderboard` (`components/Leaderboard.tsx`): the top-5 query specification, numbering and achievements.
- `UploadForm` (`components/UploadForm.tsx`): the guard order and the single insert.

Parameters stand in for everything outside the program:

- The answers of the database queries are parameters. Each carries a predicate that says what the query returns: `IsFeedQuery`, `IsTopByVotes`, `IsUserVotesQuery`.
- The identity service's email lookup is a `Directory` map.
- The id and `created_at` that the `memes` table generates on insert are the parameters `newId` and `now`.
- Timestamps are natural numbers.

## Model

| member | source | states |
|---|---|---|
| `Store.NetAfterPut` | components/MemeCard.tsx:71-83 | Setting one (user, meme) vote moves that meme's up-minus-down score by the new weight minus the old one. Every other meme's score is unchanged. |
| `Store.CountWithout` | components/MemeCard.tsx:76-77 | A meme's count of one direction is the count without a given pair, plus one exactly when that pair holds that direction on the meme. |
| `Store.NetWithoutVotes` | lib/supabase.ts:20-27 | A meme with no votes has net score 0, the assumed default of `vote_count` for a newly inserted meme. |
| `Store.Count` | components/MemeCard.tsx:76-78 | A direction's count for a meme is at most the ledger's size, and it is 0 exactly when no vote on that meme has that direction. |
| `Store.NetVotes` | components/MemeCard.tsx:76-78 | The net score lies between minus and plus the ledger's size. It is non-negative when every vote on the meme is up, and non-positive when every one is down. |
| `Store.Lookup` | components/MemeCard.tsx:43-48 | The lookup of a pair's existing vote finds a vote exactly when the pair is in the ledger, and returns its direction. The feed card's `userVotes[meme.id] \|\| null` (`components/MemeFeed.tsx:154`) is the same lookup on the dictionary. |
| `Store.Put` | components/MemeCard.tsx:50-68 | After setting or clearing one pair's vote, that pair reads back the new value and no other pair's vote changes. |
| `Store.Database.InsertVote` | components/MemeCard.tsx:63-67 | The new vote row is added under (user, meme). The memes table is untouched. |
| `Store.Database.UpdateVote` | components/MemeCard.tsx:56-59 | Only the existing row's direction is rewritten. A missing row means nothing changes. |
| `Store.Database.DeleteVote` | components/MemeCard.tsx:53 | Exactly that pair's row is removed. |
| `Store.Database.SetVoteCount` | components/MemeCard.tsx:80-83 | Only meme `m`'s `vote_count` is rewritten. Every other row and the ledger are unchanged. |
| `Store.Database.Valid` | components/MemeCard.tsx:76-83 | The cached-score invariant: every vote's meme exists and every meme's `vote_count` is its net score. It implies that a meme not in the table has net score 0. |
| `Store.Database.InsertMeme` | components/UploadForm.tsx:31-35 | It succeeds exactly when the generated id is new, adding one row with `vote_count` 0, the assumed default. The ledger is unchanged and `Valid()` is preserved. |
| `MemeCard.Apply` | components/MemeCard.tsx:50-68 | Applying one write touches only the clicked pair. A delete leaves the pair with no vote, an insert (on a pair without one) adds the requested direction and grows the ledger by one, and an update sets the direction only when the pair has a vote, keeping the size. |
| `MemeCard.Step` | components/MemeCard.tsx:50-68 | One click leaves the pair with the toggled vote (`Toggled`: none if it held the clicked direction, the clicked direction otherwise). No other pair changes. |
| `MemeCard.Resolve` | components/MemeCard.tsx:50-68 | The decision table, in both directions: insert exactly when there is no vote, delete exactly when the vote has the requested direction, update exactly when it has the opposite one. Insert and update carry the requested direction. |
| `MemeCard.StepIsToggle` | components/MemeCard.tsx:50-68 | Resolving and applying the write equals the toggle semantics, defined independently by `Toggled`. The pair ends up with no vote if it held the clicked direction, and with the clicked direction otherwise. No other pair changes. |
| `MemeCard.StepNet` | components/MemeCard.tsx:50-83 | One click changes the clicked meme's net score by the change in the pair's weight. No other meme's net score changes. |
| `MemeCard.RepeatTogglesOff` | components/MemeCard.tsx:50-53 | From no vote, one click inserts the requested direction. A second click of the same direction restores the ledger exactly. |
| `MemeCard.ThirdClickRestores` | components/MemeCard.tsx:50-68 | Three clicks of the same direction leave the ledger as one click does. |
| `MemeCard.SwitchSwingsByTwo` | components/MemeCard.tsx:54-60 | Switching an up vote to down rewrites the same record: the ledger keeps its size and the pair holds down. The net score drops by 2. |
| `MemeCard.WorkedExample` | components/MemeCard.tsx:50-78 | The clicks U1 up, U2 up, U1 down, U1 down move a fresh meme's score to +1, +2, 0 and +1. |
| `MemeCard.VoteButtons.constructor` | components/MemeCard.tsx:31 | A card starts with `voting` cleared. |
| `MemeCard.VoteButtons.HandleVote` | components/MemeCard.tsx:33-93 | With no user it reports sign-in and changes nothing. Otherwise the ledger takes exactly one resolved step for (user, m), and only `m`'s `vote_count` is rewritten, with its recomputed net score (old score plus the weight change). `voting` ends cleared and `Valid()` is preserved. |
| `MemeCard.ScoreTone` | components/MemeCard.tsx:151-155 | The badge is green exactly for a positive score, red exactly for a negative one, and grey exactly for 0. The leaderboard's score colour (`components/Leaderboard.tsx:173-177`) uses the same split. |
| `MemeCard.IntText` | components/MemeCard.tsx:156 | A number's text is non-empty, starts with '-' exactly when the number is negative, and is decimal digits after any sign. |
| `MemeCard.DigitsRoundTrip` | components/MemeCard.tsx:156 | Reading the decimal digits of a number gives the number back. |
| `MemeCard.Digits` | components/MemeCard.tsx:156 | The rendering of a number is non-empty and made only of decimal digits. |
| `MemeCard.ScoreText` | components/MemeCard.tsx:156 | The shown score starts with '+' exactly when it is positive, and with '-' exactly when it is negative. |
| `MemeCard.ScoreTextRoundTrip` | components/MemeCard.tsx:156 | The shown score parses back to the score: the sign prefix loses nothing. |
| `MemeCard.ToneMatchesSign` | components/MemeCard.tsx:151-156 | The badge colour agrees with the text. It is green exactly for '+', red exactly for '-', and grey exactly for "0". |
| `MemeFeed.AuthorLabel` | components/MemeFeed.tsx:36-50 | The label is never empty. It is the looked-up email exactly when the row has a user id whose lookup gives a non-empty email; anything other than 'Anonymous' is such an email. |
| `MemeFeed.Enrich` | components/MemeFeed.tsx:36-52 | Enrichment keeps the length and the order. Item i keeps row i's fields and gains that row's author label. |
| `MemeFeed.IsFeedQuery` | components/MemeFeed.tsx:29-32 | A feed query result lists the whole table once: it has exactly as many rows as the table has memes. |
| `MemeFeed.FeedListsEveryMemeOnce` | components/MemeFeed.tsx:29-32 | Rows that are distinct table rows covering every id number exactly the table's size. |
| `MemeFeed.FeedStartsWithNewest` | components/MemeFeed.tsx:29-32 | For a non-empty table, the first feed row is at least as new as every meme in the table. |
| `MemeFeed.EnrichKeepsOrder` | components/MemeFeed.tsx:32-52 | The labelled feed is still ordered by `created_at`, newest first. |
| `MemeFeed.VotesMapKeys` | components/MemeFeed.tsx:60-63 | The vote dictionary's keys are exactly the meme ids of the user's vote rows. |
| `MemeFeed.VotesMapLastWins` | components/MemeFeed.tsx:60-63 | For repeated meme ids, the last row's direction is the one kept. |
| `MemeFeed.VotesMapFromRows` | components/MemeFeed.tsx:60-63 | Every entry of the dictionary comes from one of the rows. |
| `MemeFeed.BuildVotesMap` | components/MemeFeed.tsx:60-63 | The `forEach` loop builds exactly the fold `VotesMap`: keys are the rows' meme ids, and the last row wins. |
| `MemeFeed.IsUserVotesQuery` | components/MemeFeed.tsx:55-58 | Every row of the user's-votes query is a vote the ledger holds for that user. |
| `MemeFeed.VotesMapAgreesWithLedger` | components/MemeFeed.tsx:54-63 | For the rows the user's-votes query returns, the dictionary shows, for every meme, exactly the vote the ledger holds for (user, meme). |
| `MemeFeed.FeedView.constructor` | components/MemeFeed.tsx:20-23 | The feed starts with no memes, an empty vote dictionary, `loading` set and `refreshing` cleared. |
| `MemeFeed.FeedView.FetchMemes` | components/MemeFeed.tsx:26-72 | The feed becomes the labelled query result, newest first. The dictionary is rebuilt only for a signed-in user and then agrees with the ledger; otherwise it is kept. `loading` and `refreshing` end cleared. |
| `Leaderboard.IsTopByVotes` | components/Leaderboard.tsx:25-29 | A top-n result has at most n rows and at most as many as the table, and is empty exactly when n is 0 or the table is empty. |
| `Leaderboard.TopHoldsMaximum` | components/Leaderboard.tsx:25-29 | The first entry of a top-by-score result has the highest `vote_count` in the whole table. |
| `Leaderboard.TieOrderIsOpen` | components/Leaderboard.tsx:28-29 | With no tie-break, both orders of two tied memes are correct results of the top-2 query. |
| `Leaderboard.Achievement` | components/Leaderboard.tsx:182-190 | An achievement is shown exactly for positions up to 3: "Meme Champion" (gold medal) at 1, "Runner Up" (silver) at 2, "Bronze Medal" at 3. |
| `Leaderboard.StandingAt` | components/Leaderboard.tsx:136-190 | An entry keeps its position and item. Its score text is the signed score (`ScoreText`) followed by " votes": non-empty, starting with '+' exactly when the score is positive. Its colour is the badge's `ScoreTone`: green exactly for a positive score, red exactly for a negative one, grey exactly for 0. Its achievement is `Achievement(position)`, present exactly at positions up to 3. |
| `Leaderboard.Standings` | components/Leaderboard.tsx:136-190 | The board keeps length and order: entry i is `StandingAt(item i, i + 1)`, so it is item i at position i + 1 with that entry's score text, colour and label, and it has an achievement exactly when i < 3. |
| `Leaderboard.StandingsFrom` | components/Leaderboard.tsx:136-137 | The numbering keeps length and order: entry i is item i at position `first + i`. |
| `Leaderboard.LeaderboardView` | components/Leaderboard.tsx:136-190 | The board shows min(5, table size) entries in non-increasing score order. Entry i is row i at position i + 1 with its author label. Its score text is the signed score followed by " votes", starting with '+' exactly when the score is positive. Its colour is `ScoreTone` of the score. Its achievement is `Achievement(i + 1)`, present exactly when i < 3. The first entry holds the table's highest score. |
| `UploadForm.Message` | components/UploadForm.tsx:20-25 | The fields error is reported exactly as "Please fill in all fields", and the sign-in error exactly as "Please sign in to upload memes". |
| `UploadForm.Check` | components/UploadForm.tsx:19-27 | Empty title or URL gives the fields error, even with no user. Non-empty fields with no user give the sign-in error. Otherwise the submission passes. |
| `UploadForm.UploadFormView.constructor` | components/UploadForm.tsx:13 | The form starts with `loading` cleared. |
| `UploadForm.UploadFormView.HandleSubmit` | components/UploadForm.tsx:17-49 | A rejected submission changes neither the tables nor `loading`. A passing one sets `loading`, which nothing clears, and inserts exactly one `memes` row (title, URL, the user's id, `created_at`, `vote_count` 0 as the assumed default) unless the generated id is taken. The ledger is unchanged and `Valid()` is preserved. |

## Left out

- The database client and every network call. Each query and write is assumed to succeed, except that a meme insert fails when the generated id is taken.
  - The model therefore has no `catch` branches: "Failed to record vote", the fetch error logs, and the upload's failure toast on any other error.
  - `handleVote` does not check the results of its writes, and the model does not either.
- Concurrency is not modelled:
  - the race between reading a pair's vote and writing it;
  - concurrent recomputation of `vote_count`;
  - `.single()` failing on several rows. The ledger's map type makes several rows per pair impossible.
- The realtime channel subscriptions and their teardown (`components/Leaderboard.tsx:61-73`, `components/MemeFeed.tsx:83-101`), and the `onVoteChange` refresh. These are push transport, not logic.
- The identity service (`getUserById`) is not part of this model. Its answer is the `Directory` parameter.
- How the database sorts and limits. The query results are specified by `IsFeedQuery` and `IsTopByVotes`, not computed.
- The `id` and `created_at` columns of vote rows. A vote is identified by its (user, meme) pair, which is unique in the ledger.
- The foreign key from votes to memes is taken as given.
  - `HandleVote` requires the meme to exist, since a card is only rendered for a fetched meme.
  - `Valid()` requires every vote's meme to exist.
- JSX, icons, CSS classes other than the score's sign colour, the rank icon and rank colour switches (`getRankIcon`, `getRankColors`), toasts, `router.push` and date formatting.
- `vote_count` is a JavaScript number. The model uses unbounded integers, which agree with it for any realistic vote count.
- The queries order by one column only (`components/Leaderboard.tsx:28`, `components/MemeFeed.tsx:32`), so tie order is left open (`TieOrderIsOpen`).
- A switch rewrites only `vote_type` (`components/MemeCard.tsx:58`); the vote's `created_at` is not modelled.
- The model assumes that the `memes` table's `vote_count` default is 0 (`InsertMeme`, `HandleSubmit`, `NetWithoutVotes`): the insert sets no `vote_count`, and the table's default is not in the source.
