/** The shared form schemas. A schema checks every rule of every field and reports one
    issue per failed rule, each on the path of its field; the input is accepted when
    there is no issue. */
module Validations {
  import Text

  /** One failed rule: the field it is about and the message shown under it. */
  datatype Issue = Issue(path: string, message: string)

  /** An optional, nullable field: left out, explicitly null, or a string. */
  datatype Field = Absent | Null | Present(s: string)

  /** The issue for one rule: none when it holds. */
  function Check(holds: bool, path: string, message: string): (r: seq<Issue>)
    ensures r == [] <==> holds
    ensures forall i :: 0 <= i < |r| ==> r[i].path == path
  {
    if holds then [] else [Issue(path, message)]
  }

  /** Every issue is on `path`. */
  predicate AllOn(issues: seq<Issue>, path: string) {
    forall i :: 0 <= i < |issues| ==> issues[i].path == path
  }

  /** Some issue is on `path`. */
  predicate SomeOn(issues: seq<Issue>, path: string) {
    exists i :: 0 <= i < |issues| && issues[i].path == path
  }

  predicate IsUpper(c: char) { 'A' <= c <= 'Z' }
  predicate IsLower(c: char) { 'a' <= c <= 'z' }
  predicate IsDigit(c: char) { '0' <= c <= '9' }

  /** A character outside `[A-Za-z0-9]`. */
  predicate IsSpecial(c: char) { !IsUpper(c) && !IsLower(c) && !IsDigit(c) }

  predicate HasUpper(s: string) { exists i :: 0 <= i < |s| && IsUpper(s[i]) }
  predicate HasLower(s: string) { exists i :: 0 <= i < |s| && IsLower(s[i]) }
  predicate HasDigit(s: string) { exists i :: 0 <= i < |s| && IsDigit(s[i]) }
  predicate HasSpecial(s: string) { exists i :: 0 <= i < |s| && IsSpecial(s[i]) }

  /** Password: at least 8 characters, with an upper-case letter, a lower-case letter, a
      digit and a character that is none of these. */
  function PasswordIssues(password: string, path: string): (r: seq<Issue>)
    ensures r == [] <==> |password| >= 8 && HasUpper(password) && HasLower(password)
                         && HasDigit(password) && HasSpecial(password)
    ensures AllOn(r, path)
    ensures |r| <= 5
  {
    Check(|password| >= 8, path, "A senha deve ter no mínimo 8 caracteres")
    + Check(HasUpper(password), path, "A senha deve conter pelo menos uma letra maiúscula")
    + Check(HasLower(password), path, "A senha deve conter pelo menos uma letra minúscula")
    + Check(HasDigit(password), path, "A senha deve conter pelo menos um número")
    + Check(HasSpecial(password), path, "A senha deve conter pelo menos um caractere especial")
  }

  /** A password with all four classes at length 8 passes. */
  lemma PasswordExampleAccepted()
    ensures PasswordIssues("Abcdef1!", "password") == []
  {
    var ok := "Abcdef1!";
    assert IsUpper(ok[0]) && IsLower(ok[1]) && IsDigit(ok[6]) && IsSpecial(ok[7]);
  }

  /** One character shorter, the same password fails the length rule alone. */
  lemma PasswordExampleTooShort()
    ensures PasswordIssues("Abcde1!", "password") == [Issue("password", "A senha deve ter no mínimo 8 caracteres")]
  {
    var short := "Abcde1!";
    assert IsUpper(short[0]) && IsLower(short[1]) && IsDigit(short[5]) && IsSpecial(short[6]);
  }

  /** With its special character replaced by a letter, it fails that rule alone. */
  lemma PasswordExampleNoSpecial()
    ensures PasswordIssues("Abcdef1x", "password") == [Issue("password", "A senha deve conter pelo menos um caractere especial")]
  {
    var plain := "Abcdef1x";
    assert IsUpper(plain[0]) && IsLower(plain[1]) && IsDigit(plain[6]);
    assert forall i :: 0 <= i < |plain| ==> !IsSpecial(plain[i]);
  }

  /** Email: not empty and accepted by the address check; the value passed on is the
      lower-cased text. The address check is a parameter. */
  function EmailIssues(email: string, isEmail: string -> bool): (r: seq<Issue>)
    ensures r == [] <==> email != "" && isEmail(email)
    ensures AllOn(r, "email")
    ensures email == "" ==> r[0] == Issue("email", "Email é obrigatório")
  {
    Check(|email| >= 1, "email", "Email é obrigatório")
    + Check(isEmail(email), "email", "Email inválido")
  }

  /** The value an accepted email is turned into. */
  function EmailOutput(email: string): (r: string)
    ensures |r| == |email|
    ensures forall i :: 0 <= i < |email| ==> r[i] == Text.LowerChar(email[i])
  {
    Text.ToLower(email)
  }

  /** Lower-casing an accepted email a second time changes nothing. */
  lemma EmailOutputIdempotent(email: string)
    ensures EmailOutput(EmailOutput(email)) == EmailOutput(email)
  {
    Text.ToLowerIdempotent(email);
  }

  /** A character of `[a-zA-Z0-9_-]`. */
  predicate IsUsernameChar(c: char) { IsUpper(c) || IsLower(c) || IsDigit(c) || c == '_' || c == '-' }

  /** `^[a-zA-Z0-9_-]+$`. */
  predicate IsUsernameText(s: string) {
    s != [] && forall i :: 0 <= i < |s| ==> IsUsernameChar(s[i])
  }

  /** Username: 3 to 30 characters, each a letter, a digit, `_` or `-`. */
  function UsernameIssues(username: string): (r: seq<Issue>)
    ensures r == [] <==> 3 <= |username| <= 30 && IsUsernameText(username)
    ensures AllOn(r, "username")
  {
    Check(|username| >= 3, "username", "O nome de usuário deve ter no mínimo 3 caracteres")
    + Check(|username| <= 30, "username", "O nome de usuário deve ter no máximo 30 caracteres")
    + Check(IsUsernameText(username), "username", "O nome de usuário deve conter apenas letras, números, _ e -")
  }

  /** A character of `[a-zA-ZÀ-ÿ\s]`. */
  predicate IsNameChar(c: char) { IsUpper(c) || IsLower(c) || ('\U{00C0}' <= c <= '\U{00FF}') || Text.IsSpace(c) }

  /** `^[a-zA-ZÀ-ÿ\s]+$`. */
  predicate IsNameText(s: string) {
    s != [] && forall i :: 0 <= i < |s| ==> IsNameChar(s[i])
  }

  /** Full name: 2 to 100 characters, each an ASCII letter, a code point from U+00C0 to
      U+00FF, or white space. */
  function FullNameIssues(fullName: string): (r: seq<Issue>)
    ensures r == [] <==> 2 <= |fullName| <= 100 && IsNameText(fullName)
    ensures AllOn(r, "full_name")
  {
    Check(|fullName| >= 2, "full_name", "O nome deve ter no mínimo 2 caracteres")
    + Check(|fullName| <= 100, "full_name", "O nome deve ter no máximo 100 caracteres")
    + Check(IsNameText(fullName), "full_name", "O nome deve conter apenas letras e espaços")
  }

  /** The Latin-1 range of the name alphabet also takes the two symbols in it, the
      multiplication and the division sign, while a digit is refused. */
  lemma FullNameAlphabet()
    ensures FullNameIssues("Jos\U{00E9} Silva") == []
    ensures FullNameIssues("A\U{00D7}B") == [] && FullNameIssues("A\U{00F7}B") == []
    ensures FullNameIssues("R2D2") != []
  {
    assert !IsNameChar("R2D2"[1]);
  }

  datatype SignupForm = SignupForm(username: string, fullName: string, email: string, password: string, confirmPassword: string)

  /** Signup: each field's own rules, and then, whatever those found, the check that
      the confirmation repeats the password, reported on `confirmPassword`. */
  function SignupIssues(form: SignupForm, isEmail: string -> bool): (r: seq<Issue>)
    ensures r == [] <==> UsernameIssues(form.username) == [] && FullNameIssues(form.fullName) == []
                         && EmailIssues(form.email, isEmail) == [] && PasswordIssues(form.password, "password") == []
                         && form.password == form.confirmPassword
  {
    UsernameIssues(form.username) + FullNameIssues(form.fullName) + EmailIssues(form.email, isEmail)
    + PasswordIssues(form.password, "password")
    + Check(form.password == form.confirmPassword, "confirmPassword", "As senhas não coincidem")
  }

  /** The only issue on `confirmPassword` is the mismatch, and it is reported exactly
      when the two passwords differ, even alongside issues on other fields. */
  lemma {:induction false} MismatchOnConfirmPassword(form: SignupForm, isEmail: string -> bool)
    ensures SomeOn(SignupIssues(form, isEmail), "confirmPassword") <==> form.password != form.confirmPassword
    ensures form.password != form.confirmPassword ==>
      SignupIssues(form, isEmail)[|SignupIssues(form, isEmail)| - 1] == Issue("confirmPassword", "As senhas não coincidem")
  {
    var fields := UsernameIssues(form.username) + FullNameIssues(form.fullName) + EmailIssues(form.email, isEmail)
      + PasswordIssues(form.password, "password");
    var tail := Check(form.password == form.confirmPassword, "confirmPassword", "As senhas não coincidem");
    assert SignupIssues(form, isEmail) == fields + tail;
    assert forall i :: 0 <= i < |fields| ==> fields[i].path != "confirmPassword";
    if form.password != form.confirmPassword {
      assert (fields + tail)[|fields|] == tail[0];
    } else {
      assert fields + tail == fields;
    }
  }

  /** Question form: a title of 10 to 200 characters, content of 20 to 5000, and a
      category id the UUID check accepts. Lengths are of the text as typed. */
  function QuestionIssues(title: string, content: string, categoryId: string, isUuid: string -> bool): (r: seq<Issue>)
    ensures r == [] <==> 10 <= |title| <= 200 && 20 <= |content| <= 5000 && isUuid(categoryId)
  {
    Check(|title| >= 10, "title", "O título deve ter no mínimo 10 caracteres")
    + Check(|title| <= 200, "title", "O título deve ter no máximo 200 caracteres")
    + Check(|content| >= 20, "content", "O conteúdo deve ter no mínimo 20 caracteres")
    + Check(|content| <= 5000, "content", "O conteúdo deve ter no máximo 5000 caracteres")
    + Check(isUuid(categoryId), "category_id", "Categoria inválida")
  }

  /** Answer form: content of 10 to 5000 characters as typed. */
  function AnswerIssues(content: string): (r: seq<Issue>)
    ensures r == [] <==> 10 <= |content| <= 5000
    ensures AllOn(r, "content") && |r| <= 1
  {
    Check(|content| >= 10, "content", "A resposta deve ter no mínimo 10 caracteres")
    + Check(|content| <= 5000, "content", "A resposta deve ter no máximo 5000 caracteres")
  }

  /** These schemas do not trim: padding a short text with spaces can make it pass. */
  lemma UntrimmedLengths()
    ensures AnswerIssues("   short   ") == [] && AnswerIssues("short") != []
  {
  }

  /** A bound on an optional, nullable text field: only a present string is measured. */
  function OptionalMaxIssues(f: Field, max: nat, path: string, message: string): (r: seq<Issue>)
    ensures r == [] <==> (f.Present? ==> |f.s| <= max)
    ensures AllOn(r, path)
  {
    Check(!f.Present? || |f.s| <= max, path, message)
  }

  datatype ProfileUpdateForm = ProfileUpdateForm(username: string, fullName: string, bio: Field, avatarUrl: Field)

  /** Profile update: username and full name as at signup, a bio that is absent, null or
      at most 500 characters, and an avatar URL that is absent, null or a URL. */
  function ProfileUpdateIssues(form: ProfileUpdateForm, isUrl: string -> bool): (r: seq<Issue>)
    ensures r == [] <==> UsernameIssues(form.username) == [] && FullNameIssues(form.fullName) == []
                         && (form.bio.Present? ==> |form.bio.s| <= 500)
                         && (form.avatarUrl.Present? ==> isUrl(form.avatarUrl.s))
  {
    UsernameIssues(form.username) + FullNameIssues(form.fullName)
    + OptionalMaxIssues(form.bio, 500, "bio", "A biografia deve ter no máximo 500 caracteres")
    + Check(!form.avatarUrl.Present? || isUrl(form.avatarUrl.s), "avatar_url", "URL de avatar inválida")
  }

  /** A bio left out or set to null never causes an issue; a present bio causes one
      exactly when it is over 500 characters. */
  lemma {:induction false} BioIsOptional(form: ProfileUpdateForm, isUrl: string -> bool)
    ensures form.bio.Absent? || form.bio.Null? ==>
      ProfileUpdateIssues(form, isUrl) == ProfileUpdateIssues(form.(bio := Present("")), isUrl)
    ensures form.bio.Present? ==> (SomeOn(ProfileUpdateIssues(form, isUrl), "bio") <==> |form.bio.s| > 500)
  {
    var head := UsernameIssues(form.username) + FullNameIssues(form.fullName);
    var bio := OptionalMaxIssues(form.bio, 500, "bio", "A biografia deve ter no máximo 500 caracteres");
    var url := Check(!form.avatarUrl.Present? || isUrl(form.avatarUrl.s), "avatar_url", "URL de avatar inválida");
    assert ProfileUpdateIssues(form, isUrl) == head + bio + url;
    assert forall i :: 0 <= i < |head| ==> head[i].path != "bio";
    if form.bio.Present? && |form.bio.s| > 500 {
      assert (head + bio + url)[|head|] == bio[0];
    }
  }
}
