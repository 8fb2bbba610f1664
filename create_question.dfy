/** The new-question page: its trimmed schema and the validate, look up the profile,
    then insert flow of submitting it. */
module CreateQuestion {
  import opened Tables
  import Text
  import Validations

  /** The three fields of the form as typed. */
  datatype QuestionForm = QuestionForm(title: string, content: string, categoryId: string)

  /** The page's schema: title and content are trimmed first, then the title must have
      10 to 200 characters, the content 20 to 5000, and the category id must pass the
      UUID check (a parameter). Issues come in field order. */
  function QuestionSchemaIssues(form: QuestionForm, isUuid: string -> bool): (r: seq<Validations.Issue>)
    ensures r == [] <==> Validations.QuestionIssues(Text.Trim(form.title), Text.Trim(form.content), form.categoryId, isUuid) == []
  {
    var title := Text.Trim(form.title);
    var content := Text.Trim(form.content);
    Validations.Check(|title| >= 10, "title", "O título deve ter no mínimo 10 caracteres")
    + Validations.Check(|title| <= 200, "title", "O título deve ter no máximo 200 caracteres")
    + Validations.Check(|content| >= 20, "content", "O conteúdo deve ter no mínimo 20 caracteres")
    + Validations.Check(|content| <= 5000, "content", "O conteúdo deve ter no máximo 5000 caracteres")
    + Validations.Check(isUuid(form.categoryId), "category_id", "Selecione uma categoria válida")
  }

  /** What the schema passes on: the trimmed title and content and the category id as
      typed. */
  function Parsed(form: QuestionForm): (r: QuestionForm)
    ensures Text.IsTrimmed(r.title) && Text.IsTrimmed(r.content) && r.categoryId == form.categoryId
    ensures |r.title| <= |form.title| && |r.content| <= |form.content|
  {
    QuestionForm(Text.Trim(form.title), Text.Trim(form.content), form.categoryId)
  }

  /** A form the schema accepts parses to one whose title and content are within
      bounds, and whose category id passed the UUID check. */
  lemma AcceptedFormBounds(form: QuestionForm, isUuid: string -> bool)
    requires QuestionSchemaIssues(form, isUuid) == []
    ensures 10 <= |Parsed(form).title| <= 200 && 20 <= |Parsed(form).content| <= 5000
    ensures isUuid(form.categoryId)
  {
  }

  /** Parsing an already parsed form changes nothing. */
  lemma ParsedIdempotent(form: QuestionForm)
    ensures Parsed(Parsed(form)) == Parsed(form)
  {
    Text.TrimIdempotent(form.title);
    Text.TrimIdempotent(form.content);
  }

  /** The message shown when the author's profile row is not found. */
  const ProfileNotFoundMessage: string := "Perfil não encontrado"

  /** How a submission ends: nothing happens when signed out; otherwise a validation
      message, the missing-profile error, a failed insert, or the id of the new
      question, to which the page navigates. */
  datatype SubmitResult =
    | NotSignedIn
    | ValidationFailed(message: string)
    | Failed(message: string)
    | InsertFailed
    | Created(questionId: Id)

  /** The number of profile rows with id `id`. */
  function CountProfiles(profiles: seq<Profile>, id: Id): (n: nat)
    ensures n <= |profiles|
    ensures n == 0 <==> forall i :: 0 <= i < |profiles| ==> profiles[i].id != id
  {
    if profiles == [] then 0
    else (if profiles[0].id == id then 1 else 0) + CountProfiles(profiles[1..], id)
  }

  /** How a submission by `user` ends, given the profiles table, whether the insert
      fails, and the id the store hands out next: signed out, rejected by the schema
      with its first message, refused for want of a single profile row, failed in the
      store, or created under that id. */
  function SubmitOutcome(profiles: seq<Profile>, user: Option<Id>, form: QuestionForm, isUuid: string -> bool,
                         insertFails: bool, nextId: Id): (r: SubmitResult)
    ensures r == NotSignedIn <==> user.None?
    ensures r.ValidationFailed? <==> user.Some? && QuestionSchemaIssues(form, isUuid) != []
    ensures r.ValidationFailed? ==> r.message == QuestionSchemaIssues(form, isUuid)[0].message
    ensures r.Failed? <==> user.Some? && QuestionSchemaIssues(form, isUuid) == [] && CountProfiles(profiles, user.value) != 1
    ensures r.Failed? ==> r.message == ProfileNotFoundMessage
    ensures r.Created? <==>
      user.Some? && QuestionSchemaIssues(form, isUuid) == [] && CountProfiles(profiles, user.value) == 1 && !insertFails
    ensures r.Created? ==> r.questionId == nextId
  {
    if user.None? then NotSignedIn
    else
      var issues := QuestionSchemaIssues(form, isUuid);
      if issues != [] then ValidationFailed(issues[0].message)
      else if CountProfiles(profiles, user.value) != 1 then Failed(ProfileNotFoundMessage)
      else if insertFails then InsertFailed
      else Created(nextId)
  }

  /** Submits the form as `user`: the schema first, then a single-row lookup of the
      user's profile, then one insert of a question owned by that profile with the
      trimmed title and content, under a fresh id. Every path but the last leaves the
      questions table as it was. */
  method HandleSubmit(db: Store, user: Option<Id>, form: QuestionForm, isUuid: string -> bool, insertFails: bool)
    returns (result: SubmitResult)
    requires db.Valid()
    modifies db`questions, db`nextId
    ensures db.Valid()
    ensures result == SubmitOutcome(db.profiles, user, form, isUuid, insertFails, old(db.nextId))
    ensures !result.Created? ==> db.questions == old(db.questions) && db.nextId == old(db.nextId)
    ensures result.Created? ==>
      && db.questions == old(db.questions) + [Question(old(db.nextId), user.value, form.categoryId, Parsed(form).title, Parsed(form).content, None)]
      && db.nextId == old(db.nextId) + 1
  {
    if user.None? {
      return NotSignedIn;
    }
    var issues := QuestionSchemaIssues(form, isUuid);
    if issues != [] {
      return ValidationFailed(issues[0].message);
    }
    var validated := Parsed(form);
    if CountProfiles(db.profiles, user.value) != 1 {
      return Failed(ProfileNotFoundMessage);
    }
    if insertFails {
      return InsertFailed;
    }
    var id := db.InsertQuestion(user.value, validated.categoryId, validated.title, validated.content);
    result := Created(id);
  }
}
