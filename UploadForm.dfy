/**
  The upload form: two guards in a fixed order, then one insert into the
  `memes` table.
 */
module UploadForm {
  import opened Schema
  import opened Store

  /** The `maxLength` of the title input. */
  const MaxTitleLength: nat := 100

  /** Why a submission was turned away before reaching the table. */
  datatype Rejection = FieldsMissing | SignInRequired

  function Message(r: Rejection): (m: string)
    ensures r == FieldsMissing <==> m == "Please fill in all fields"
    ensures r == SignInRequired <==> m == "Please sign in to upload memes"
  {
    match r
    case FieldsMissing => "Please fill in all fields"
    case SignInRequired => "Please sign in to upload memes"
  }

  /** The guards of `handleSubmit`, in order: both fields must be non-empty,
      then a user must be signed in. Empty fields are reported even when
      nobody is signed in. */
  function Check(title: string, imageUrl: string, user: Option<UserId>): (r: Option<Rejection>)
    ensures r == Some(FieldsMissing) <==> title == "" || imageUrl == ""
    ensures r == Some(SignInRequired) <==> title != "" && imageUrl != "" && user.None?
    ensures r.None? <==> title != "" && imageUrl != "" && user.Some?
  {
    if title == "" || imageUrl == "" then Some(FieldsMissing)
    else if user.None? then Some(SignInRequired)
    else None
  }

  datatype SubmitOutcome = Rejected(reason: Rejection) | Uploaded | UploadFailed

  /** The form's own state: the `loading` flag of the submit button. */
  class UploadFormView {
    var loading: bool

    constructor ()
      ensures !loading
    {
      loading := false;
    }

    /** `handleSubmit`. A rejected submission changes nothing. Otherwise
        `loading` is set and stays set whatever happens next (nothing clears
        it), and exactly one row is inserted: the title, the image URL, the
        signed-in user, the table's `created_at` (`now`) and `vote_count = 0`.
        The insert fails only when the table's generated id is already taken. */
    method HandleSubmit(db: Database, title: string, imageUrl: string, user: Option<UserId>,
                        newId: MemeId, now: nat)
      returns (outcome: SubmitOutcome)
      requires |title| <= MaxTitleLength
      requires db.Valid()
      modifies this, db
      ensures db.Valid()
      ensures db.votes == old(db.votes)
      ensures Check(title, imageUrl, user).Some? ==>
        && outcome == Rejected(Check(title, imageUrl, user).value)
        && db.memes == old(db.memes)
        && loading == old(loading)
      ensures Check(title, imageUrl, user).None? ==>
        && loading
        && (outcome == Uploaded <==> newId !in old(db.memes))
        && (outcome == UploadFailed <==> newId in old(db.memes))
        && db.memes == if newId in old(db.memes) then old(db.memes)
                       else old(db.memes)[newId := MemeRow(title, imageUrl, Some(user.value), now, 0)]
    {
      if title == "" || imageUrl == "" {
        return Rejected(FieldsMissing);
      }
      if user.None? {
        return Rejected(SignInRequired);
      }
      loading := true;
      var ok := db.InsertMeme(newId, title, imageUrl, user.value, now);
      if ok {
        outcome := Uploaded;
      } else {
        outcome := UploadFailed;
      }
    }
  }
}
