/** The error-message sanitiser: raw error text from the store or the auth provider is
    mapped onto a fixed set of user-facing messages, so that raw text never reaches the
    screen; plus the input cleaner and the validation-error test. */
module ErrorHandler {
  import opened Tables
  import Text

  /** What the handlers receive as `error`: a falsy value (null, undefined, false, 0),
      a string, or an error object whose `message` and `error_description` may be absent. */
  datatype ErrorValue =
    | Falsy
    | Str(s: string)
    | ErrorObject(message: Option<string>, errorDescription: Option<string>)

  /** An exact-match table and a substring table, each a list of (key, message) pairs in
      declaration order. */
  type Table = seq<(string, string)>

  const AuthErrorMessages: Table := [
    ("Invalid login credentials", "Email ou senha incorretos"),
    ("User already registered", "Este email já está cadastrado"),
    ("Email not confirmed", "Por favor, confirme seu email antes de fazer login"),
    ("Password should be at least 6 characters", "A senha deve ter pelo menos 6 caracteres"),
    ("Unable to validate email address", "Endereço de email inválido"),
    ("Signup requires a valid password", "Uma senha válida é obrigatória"),
    ("User not found", "Usuário não encontrado"),
    ("Email rate limit exceeded", "Muitas tentativas. Por favor, aguarde alguns minutos"),
    ("Invalid Refresh Token", "Sessão expirada. Por favor, faça login novamente"),
    ("Token has expired", "Sessão expirada. Por favor, faça login novamente"),
    ("Invalid token", "Token inválido. Por favor, faça login novamente"),
    ("New password should be different from the old password", "A nova senha deve ser diferente da senha atual")
  ]

  const DatabaseErrorMessages: Table := [
    ("duplicate key value violates unique constraint", "Este valor já está em uso"),
    ("violates foreign key constraint", "Referência inválida"),
    ("violates not-null constraint", "Campo obrigatório não preenchido"),
    ("permission denied", "Você não tem permissão para realizar esta ação"),
    ("row-level security", "Você não tem permissão para acessar este recurso")
  ]

  const DefaultMessage: string := "Ocorreu um erro. Por favor, tente novamente."
  const NetworkMessage: string := "Erro de conexão. Verifique sua internet e tente novamente."
  const TimeoutMessage: string := "A operação demorou muito. Por favor, tente novamente."

  /** The messages of a table. */
  function Values(t: Table): (r: set<string>)
    ensures forall i :: 0 <= i < |t| ==> t[i].1 in r
    ensures forall v :: v in r ==> exists i :: 0 <= i < |t| && t[i].1 == v
  {
    set i | 0 <= i < |t| :: t[i].1
  }

  /** Everything the sanitiser may show, given the caller's default message. */
  function Shown(defaultMessage: string): set<string> {
    {defaultMessage, NetworkMessage, TimeoutMessage} + Values(AuthErrorMessages) + Values(DatabaseErrorMessages)
  }

  /** The raw text the sanitiser inspects: the string itself, or the object's `message`
      falling back on its `error_description` when the message is missing or empty. The
      empty string stands for a falsy result. */
  function RawMessage(error: ErrorValue): string {
    match error
    case Falsy => ""
    case Str(s) => s
    case ErrorObject(message, description) =>
      if message.Some? && message.value != "" then message.value
      else if description.Some? then description.value
      else ""
  }

  /** The entry whose key equals `key`, the first one in table order. */
  function LookupExact(t: Table, key: string): (r: Option<string>)
    ensures r.Some? <==> exists i :: 0 <= i < |t| && t[i].0 == key
    ensures r.Some? ==> exists i :: 0 <= i < |t| && t[i].0 == key && t[i].1 == r.value
  {
    if t == [] then None
    else if t[0].0 == key then Some(t[0].1)
    else
      var r := LookupExact(t[1..], key);
      assert forall i :: 1 <= i < |t| ==> t[i] == t[1..][i - 1];
      r
  }

  /** `i` is the first entry of `t` whose lower-cased key occurs in `lowered`. */
  predicate FirstSubstringAt(t: Table, lowered: string, i: int) {
    && 0 <= i < |t|
    && Text.Contains(lowered, Text.ToLower(t[i].0))
    && (forall j :: 0 <= j < i ==> !Text.Contains(lowered, Text.ToLower(t[j].0)))
  }

  /** The message of the first entry, in table order, whose lower-cased key occurs in
      `lowered`. */
  function FirstSubstringMatch(t: Table, lowered: string): (r: Option<string>)
    ensures r.None? <==> forall i :: 0 <= i < |t| ==> !Text.Contains(lowered, Text.ToLower(t[i].0))
    ensures r.Some? ==> exists i :: FirstSubstringAt(t, lowered, i) && t[i].1 == r.value
  {
    if t == [] then None
    else if Text.Contains(lowered, Text.ToLower(t[0].0)) then
      assert FirstSubstringAt(t, lowered, 0);
      Some(t[0].1)
    else
      var r := FirstSubstringMatch(t[1..], lowered);
      if r.Some? then
        var i :| FirstSubstringAt(t[1..], lowered, i) && t[1..][i].1 == r.value;
        assert FirstSubstringAt(t, lowered, i + 1);
        r
      else
        assert forall i :: 1 <= i < |t| ==> t[i] == t[1..][i - 1];
        r
  }

  predicate IsNetworkText(m: string) {
    Text.Contains(m, "fetch") || Text.Contains(m, "network") || Text.Contains(m, "Network request failed")
  }

  predicate IsTimeoutText(m: string) {
    Text.Contains(m, "timeout")
  }

  /** Maps an error to a user-facing message by its text alone. Whatever the error,
      the result is one of the fixed messages or the default: raw error text is never
      shown. */
  function SanitizeErrorMessage(error: ErrorValue, defaultMessage: string): (r: string)
    ensures r in Shown(defaultMessage)
    ensures RawMessage(error) == "" ==> r == defaultMessage
  {
    MessageFor(RawMessage(error), defaultMessage)
  }

  /** The message for error text `m`: the exact-match auth table first, then the
      case-insensitive substring table, then the network and the timeout words, else
      the default. */
  function MessageFor(m: string, defaultMessage: string): (r: string)
    ensures r in Shown(defaultMessage)
    ensures m == "" ==> r == defaultMessage
  {
    if m == "" then defaultMessage
    else
      match LookupExact(AuthErrorMessages, m)
      case Some(v) => v
      case None =>
        match FirstSubstringMatch(DatabaseErrorMessages, Text.ToLower(m))
        case Some(v) => v
        case None =>
          if IsNetworkText(m) then NetworkMessage
          else if IsTimeoutText(m) then TimeoutMessage
          else defaultMessage
  }

  /** An error with no usable text (falsy, the empty string, or an object with neither a
      message nor a description) gives the default message. */
  lemma NoTextGivesDefault(d: string)
    ensures SanitizeErrorMessage(Falsy, d) == d
    ensures SanitizeErrorMessage(Str(""), d) == d
    ensures SanitizeErrorMessage(ErrorObject(None, None), d) == d
    ensures SanitizeErrorMessage(ErrorObject(Some(""), None), d) == d
  {
  }

  /** An object whose message is empty is read through its description. */
  lemma DescriptionStandsIn(d: string, description: string)
    requires description != ""
    ensures SanitizeErrorMessage(ErrorObject(Some(""), Some(description)), d) == SanitizeErrorMessage(Str(description), d)
  {
  }

  /** A message that is a key of the auth table gets that entry's message, even when it
      also contains a database key or a network word. */
  lemma {:induction false} ExactMatchHasPriority(m: string, d: string, i: nat)
    requires i < |AuthErrorMessages| && AuthErrorMessages[i].0 == m
    ensures SanitizeErrorMessage(Str(m), d) == AuthErrorMessages[i].1
  {
    AuthKeyNonEmpty(i);
    var r := LookupExact(AuthErrorMessages, m);
    assert r.Some?;
    var j :| 0 <= j < |AuthErrorMessages| && AuthErrorMessages[j].0 == m && AuthErrorMessages[j].1 == r.value;
    AuthKeysDistinct(i, j);
  }

  /** Every key of the auth table is a non-empty text. */
  lemma AuthKeyNonEmpty(i: nat)
    requires i < |AuthErrorMessages|
    ensures AuthErrorMessages[i].0 != ""
  {
  }

  lemma AuthKeysDistinct(i: nat, j: nat)
    requires i < |AuthErrorMessages| && j < |AuthErrorMessages|
    requires AuthErrorMessages[i].0 == AuthErrorMessages[j].0
    ensures i == j
  {
  }

  /** For a message outside the auth table, the first database key (in table order)
      that occurs in the message, ignoring case, decides the result. */
  lemma {:induction false} FirstDatabaseKeyWins(m: string, d: string, i: nat)
    requires m != "" && LookupExact(AuthErrorMessages, m).None?
    requires FirstSubstringAt(DatabaseErrorMessages, Text.ToLower(m), i)
    ensures SanitizeErrorMessage(Str(m), d) == DatabaseErrorMessages[i].1
  {
    var r := FirstSubstringMatch(DatabaseErrorMessages, Text.ToLower(m));
    assert r.Some?;
    var j :| FirstSubstringAt(DatabaseErrorMessages, Text.ToLower(m), j) && DatabaseErrorMessages[j].1 == r.value;
    FirstIsUnique(DatabaseErrorMessages, Text.ToLower(m), i, j);
  }

  /** At most one entry is the first match. */
  lemma FirstIsUnique(t: Table, lowered: string, i: int, j: int)
    requires FirstSubstringAt(t, lowered, i) && FirstSubstringAt(t, lowered, j)
    ensures i == j
  {
  }

  /** The database match ignores case: two messages outside the auth table that agree
      once lower-cased, one of which hits the database table, get the same message. */
  lemma DatabaseMatchIgnoresCase(m1: string, m2: string, d: string)
    requires m1 != "" && m2 != ""
    requires LookupExact(AuthErrorMessages, m1).None? && LookupExact(AuthErrorMessages, m2).None?
    requires Text.ToLower(m1) == Text.ToLower(m2)
    requires FirstSubstringMatch(DatabaseErrorMessages, Text.ToLower(m1)).Some?
    ensures SanitizeErrorMessage(Str(m1), d) == SanitizeErrorMessage(Str(m2), d)
    ensures SanitizeErrorMessage(Str(m1), d) in Values(DatabaseErrorMessages)
  {
  }

  /** Past both tables, a network word wins over "timeout"; both tests are
      case-sensitive, so they see the message as written. */
  lemma NetworkBeforeTimeout(m: string, d: string)
    requires m != "" && LookupExact(AuthErrorMessages, m).None?
    requires FirstSubstringMatch(DatabaseErrorMessages, Text.ToLower(m)).None?
    ensures IsNetworkText(m) ==> SanitizeErrorMessage(Str(m), d) == NetworkMessage
    ensures !IsNetworkText(m) && IsTimeoutText(m) ==> SanitizeErrorMessage(Str(m), d) == TimeoutMessage
    ensures !IsNetworkText(m) && !IsTimeoutText(m) ==> SanitizeErrorMessage(Str(m), d) == d
  {
  }

  /** Removes every NUL character, then trims. */
  function SanitizeInput(input: string): (r: string)
    ensures '\0' !in r
    ensures Text.IsTrimmed(r)
    ensures |r| <= |input|
    ensures forall c :: c in r ==> c in input
    ensures input == "" ==> r == ""
    ensures exists lo :: Text.CutAt(Text.RemoveChar(input, '\0'), lo, r)
  {
    if input == "" then
      assert Text.CutAt(Text.RemoveChar(input, '\0'), 0, "");
      ""
    else
      var sanitized := Text.RemoveChar(input, '\0');
      var t := Text.Trim(sanitized);
      RemoveCharShrinks(input, '\0');
      Text.TrimCutsSpace(sanitized);
      var lo :| Text.CutAt(sanitized, lo, t);
      assert forall c :: c in t ==> c in sanitized;
      t
  }

  lemma {:induction false} RemoveCharShrinks(s: string, c: char)
    ensures |Text.RemoveChar(s, c)| <= |s|
  {
    if s != [] { RemoveCharShrinks(s[1..], c); }
  }

  /** Cleaning an already cleaned input changes nothing. */
  lemma SanitizeInputIdempotent(input: string)
    ensures SanitizeInput(SanitizeInput(input)) == SanitizeInput(input)
  {
    var r := SanitizeInput(input);
    if r != "" {
      assert Text.RemoveChar(r, '\0') == r;
      Text.TrimOfTrimmed(r);
    }
  }

  /** The text `isValidationError` inspects: the string itself, or the object's `message`
      only (its `error_description` is not consulted). */
  function ValidationText(error: ErrorValue): string {
    match error
    case Falsy => ""
    case Str(s) => s
    case ErrorObject(message, _) => if message.Some? then message.value else ""
  }

  /** Whether the error reads like a validation failure. */
  function IsValidationError(error: ErrorValue): (r: bool)
    ensures error.Falsy? ==> !r
    ensures r <==> exists i :: Text.OccursAt(ValidationText(error), "validation", i)
                           || Text.OccursAt(ValidationText(error), "invalid", i)
                           || Text.OccursAt(ValidationText(error), "required", i)
  {
    if error.Falsy? then false
    else
      var message := ValidationText(error);
      Text.Contains(message, "validation") || Text.Contains(message, "invalid") || Text.Contains(message, "required")
  }

  /** The validation test ignores `error_description`, unlike the sanitiser, and an
      error with no message is not a validation error. */
  lemma ValidationIgnoresDescription(message: Option<string>, d1: Option<string>, d2: Option<string>)
    ensures IsValidationError(ErrorObject(message, d1)) == IsValidationError(ErrorObject(message, d2))
    ensures !IsValidationError(ErrorObject(None, d1))
  {
    assert ValidationText(ErrorObject(None, d1)) == "";
  }
}
