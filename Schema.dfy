/**
  Record shapes of the two tables, `memes` and `votes`, and the small value
  types shared by every component.
 */
module Schema {

  datatype Option<+T> = None | Some(value: T)

  type UserId = string
  type MemeId = string

  /** The `vote_type` column: 'up' | 'down'. */
  datatype VoteType = Up | Down

  /** A vote row is identified by the pair (user_id, meme_id); the ledger
      holds at most one row per pair, so the pair is its key. */
  datatype VoteKey = VoteKey(user: UserId, meme: MemeId)

  /** One row of the `memes` table without its `id` (the table's key).
      `created_at` is a timestamp; `user_id` may be missing. */
  datatype MemeRow = MemeRow(
    title: string,
    imageUrl: string,
    userId: Option<UserId>,
    createdAt: nat,
    voteCount: int)

  /** A `memes` row as a query returns it, together with its id. */
  datatype Meme = Meme(id: MemeId, row: MemeRow)

  /** A row of the user's votes as the feed selects it: (meme_id, vote_type). */
  datatype VoteRow = VoteRow(memeId: MemeId, voteType: VoteType)

  /** JavaScript truthiness of an optional string: present and non-empty. */
  predicate Truthy(s: Option<string>)
  {
    s.Some? && s.value != ""
  }
}
