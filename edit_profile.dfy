/** The profile editing dialog: its trimmed schema, and saving the result with empty
    optional fields stored as null. */
module EditProfile {
  import opened Tables
  import Text
  import Validations

  /** The dialog's fields; an optional field may be left undefined. */
  datatype ProfileForm = ProfileForm(
    fullName: string, headline: Option<string>, bio: Option<string>, university: Option<string>, course: Option<string>)

  /** Trims a field when it is there. */
  function TrimField(f: Option<string>): (r: Option<string>)
    ensures r.Some? <==> f.Some?
    ensures r.Some? ==> Text.IsTrimmed(r.value) && |r.value| <= |f.value|
  {
    if f.Some? then Some(Text.Trim(f.value)) else None
  }

  /** The bound on an optional trimmed field. */
  function MaxIssue(f: Option<string>, max: nat, path: string, message: string): (r: seq<Validations.Issue>)
    ensures r == [] <==> (f.Some? ==> |Text.Trim(f.value)| <= max)
  {
    Validations.Check(f.None? || |Text.Trim(f.value)| <= max, path, message)
  }

  /** The dialog's schema: every field is trimmed first; the full name must then have 1
      to 100 characters, the headline at most 150, the bio at most 500, and the
      university and the course at most 100 each. */
  function ProfileSchemaIssues(form: ProfileForm): (r: seq<Validations.Issue>)
    ensures r == [] <==>
      && 1 <= |Text.Trim(form.fullName)| <= 100
      && (form.headline.Some? ==> |Text.Trim(form.headline.value)| <= 150)
      && (form.bio.Some? ==> |Text.Trim(form.bio.value)| <= 500)
      && (form.university.Some? ==> |Text.Trim(form.university.value)| <= 100)
      && (form.course.Some? ==> |Text.Trim(form.course.value)| <= 100)
  {
    var fullName := Text.Trim(form.fullName);
    var names := Validations.Check(|fullName| >= 1, "fullName", "Nome completo é obrigatório")
      + Validations.Check(|fullName| <= 100, "fullName", "Nome deve ter no máximo 100 caracteres");
    var about := MaxIssue(form.headline, 150, "headline", "Descrição deve ter no máximo 150 caracteres")
      + MaxIssue(form.bio, 500, "bio", "Bio deve ter no máximo 500 caracteres");
    var studies := MaxIssue(form.university, 100, "university", "Nome da universidade deve ter no máximo 100 caracteres")
      + MaxIssue(form.course, 100, "course", "Nome do curso deve ter no máximo 100 caracteres");
    names + about + studies
  }

  /** The values the schema passes on: every present field trimmed. */
  function Parsed(form: ProfileForm): ProfileForm {
    ProfileForm(Text.Trim(form.fullName), TrimField(form.headline), TrimField(form.bio),
                TrimField(form.university), TrimField(form.course))
  }

  /** `value || null`: an undefined or empty field becomes null. */
  function NullIfEmpty(f: Option<string>): (r: Option<string>)
    ensures r.Some? <==> f.Some? && f.value != ""
    ensures r.Some? ==> r.value == f.value
  {
    if f.Some? && f.value != "" then f else None
  }

  /** A profile row rewritten with the saved values. */
  function Saved(p: Profile, values: ProfileForm): Profile {
    p.(fullName := values.fullName, headline := NullIfEmpty(values.headline), bio := NullIfEmpty(values.bio),
       university := NullIfEmpty(values.university), course := NullIfEmpty(values.course))
  }

  /** The profiles table after saving `values` on the rows with id `id`. */
  function UpdateProfiles(profiles: seq<Profile>, id: Id, values: ProfileForm): (r: seq<Profile>)
    ensures |r| == |profiles|
    ensures forall i :: 0 <= i < |profiles| ==>
      r[i] == if profiles[i].id == id then Saved(profiles[i], values) else profiles[i]
  {
    seq(|profiles|, i requires 0 <= i < |profiles| =>
      if profiles[i].id == id then Saved(profiles[i], values) else profiles[i])
  }

  /** An optional profile field as stored: null, or a non-empty trimmed text of at most
      `max` characters. */
  predicate StoredOptional(f: Option<string>, max: nat) {
    f.Some? ==> f.value != "" && Text.IsTrimmed(f.value) && |f.value| <= max
  }

  /** What saving an accepted form stores: a trimmed full name of 1 to 100 characters,
      and optional fields that are null or non-empty, trimmed and within their bounds. A
      field left undefined, empty or all white space is stored as null. */
  lemma {:induction false} SavedFields(p: Profile, form: ProfileForm)
    requires ProfileSchemaIssues(form) == []
    ensures var q := Saved(p, Parsed(form));
      && q.id == p.id
      && Text.IsTrimmed(q.fullName) && 1 <= |q.fullName| <= 100
      && StoredOptional(q.headline, 150) && StoredOptional(q.bio, 500)
      && StoredOptional(q.university, 100) && StoredOptional(q.course, 100)
    ensures Saved(p, Parsed(form)).bio.None? <==> form.bio.None? || Text.Trim(form.bio.value) == ""
  {
  }

  /** Saving the same values twice stores the same table as saving them once. */
  lemma UpdateIdempotent(profiles: seq<Profile>, id: Id, values: ProfileForm)
    ensures UpdateProfiles(UpdateProfiles(profiles, id, values), id, values) == UpdateProfiles(profiles, id, values)
  {
  }

  /** The dialog: whether it is open, and how many times it has told the page to reload
      the profile. */
  class EditProfileDialog {
    var open: bool
    var refreshCount: nat

    constructor ()
      ensures !open && refreshCount == 0
    {
      open := false;
      refreshCount := 0;
    }

    /** Saves the form: the schema runs first and nothing happens on an issue; then the
        signed-in user is looked up, and an auth failure changes nothing; then the
        user's profile row is updated with the trimmed values, empty optional fields
        as null. Only a successful update closes the dialog and asks for a reload. */
    method HandleSubmit(db: Store, form: ProfileForm, authUser: Option<Id>, updateFails: bool) returns (outcome: Outcome)
      modifies this`open, this`refreshCount, db`profiles
      ensures ProfileSchemaIssues(form) != [] ==> outcome == Invalid
      ensures ProfileSchemaIssues(form) == [] && authUser.None? ==> outcome == AuthRequired
      ensures ProfileSchemaIssues(form) == [] && authUser.Some? ==> outcome == if updateFails then StoreFailed else Done
      ensures outcome != Done ==>
        db.profiles == old(db.profiles) && open == old(open) && refreshCount == old(refreshCount)
      ensures outcome == Done ==>
        && db.profiles == UpdateProfiles(old(db.profiles), authUser.value, Parsed(form))
        && !open && refreshCount == old(refreshCount) + 1
    {
      if ProfileSchemaIssues(form) != [] {
        return Invalid;
      }
      var values := Parsed(form);
      if authUser.None? {
        return AuthRequired;
      }
      if updateFails {
        return StoreFailed;
      }
      db.profiles := UpdateProfiles(db.profiles, authUser.value, values);
      open := false;
      refreshCount := refreshCount + 1;
      outcome := Done;
    }
  }
}
