# UnAjuda business rules in Dafny

UnAjuda is a question-and-answer site for university students. Its rules live in its
React pages and components, next to rendering and calls to a hosted database. This
project models those rules with the database replaced by in-memory tables: one sequence
of rows per table in the `Tables.Store` class, plus a counter that hands out fresh row
ids. Every database write is one atomic step on those sequences. The model covers:

- **Reputation** (`reputation.dfy`): the linear score, the six level names, and the
  colour ladder.
- **Profile gamification** (`profile.dfy`): the five activity counts read from the
  tables, the badge awarder, and the icon lookup.
- **Vote ledger** (`vote_buttons.dfy`): one vote record per (user, target). A click
  inserts, deletes or updates that record, and the tallies are recounted.
- **Question page** (`question_detail.dfy`): the trimmed answer schema, the view counter,
  posting an answer, and accepting an answer.
- **Answer card** (`answer_card.dfy`): who may reply, when the accept button shows, and
  posting a reply.
- **New question** (`create_question.dfy`) and **profile editing** (`edit_profile.dfy`):
  trimmed schemas, then the guarded insert or update.
- **Shared schemas** (`validations.dfy`): password, email, username, full name, signup,
  question, answer and profile-update forms. Each rule that fails reports one issue on
  its field's path.
- **Error sanitiser** (`error_handler.dfy`): raw error text is mapped onto a fixed set of
  messages. Also the input cleaner and the validation-error test.
- **Search** (`search.dfy`): the case-insensitive, order-preserving filter.
- **JavaScript string operations** (`text.dfy`): `trim`, `toLowerCase`, `includes`, and
  removing one character.

Some facts the proofs bring out:

- Accepting an answer clears the flag on the answers of the current question, then sets
  it on every row with the chosen id, whatever question that row belongs to.
  `QuestionDetail.AcceptKeepsAtMostOne` proves "at most one accepted answer per question"
  for answers of the current question. That is the only kind the page offers.
  `QuestionDetail.AcceptOfForeignAnswerBreaksInvariant` shows what the second write would
  do with an answer of another question.
- The shared schemas in `validations.dfy` measure text as typed. The page schemas trim
  first, so padding a short answer with spaces passes one but not the other.
- The full-name alphabet takes all of U+00C0 to U+00FF, including the multiplication
  and division signs.
- An empty search query is tested explicitly, but the empty string occurs in every text,
  so the filter would keep everything anyway.

Parameters stand in for what the model cannot see:

- the address, UUID and URL checks of the schema library;
- whether a store write fails;
- the signed-in user;
- the badge catalog as read;
- the stats snapshot the awarder uses.

## Model

| member | source | states |
|---|---|---|
| Reputation.CalculateReputation | src/utils/reputation.ts:16-28 | the score is 15 per accepted answer, 5 per helpful vote and 10 per well-rated question, and is a multiple of 5 |
| Reputation.ScoreMonotone | src/utils/reputation.ts:22-28 | more of any count never lowers the score |
| Reputation.ScoreIncrements | src/utils/reputation.ts:16-28 | all-zero stats score 0; one more unit of a count adds exactly its points |
| Reputation.GetReputationLevel | src/utils/reputation.ts:30-37 | the level is one of the six tier names |
| Reputation.TierIndex | src/utils/reputation.ts:30-37 | reference definition: the highest tier whose inclusive lower bound (0, 50, 100, 250, 500, 1000) the score meets |
| Reputation.LevelIsHighestTierMet | src/utils/reputation.ts:30-37 | the if-chain returns the name of the highest tier whose threshold is met |
| Reputation.LevelBoundaries | src/utils/reputation.ts:30-37 | 49 is Novato, 50 Iniciante, 99 Iniciante, 100 Intermediário, 249/250, 499/500 and 999/1000 fall on the stated sides |
| Reputation.LevelMonotone | src/utils/reputation.ts:30-37 | a larger score never gives a lower tier |
| Reputation.GetReputationColor | src/utils/reputation.ts:39-45 | a score below 100 gets the muted colour, and only such a score gets it |
| Reputation.ColorIsTierColor | src/utils/reputation.ts:39-45 | the colour is the level's entry in the colour table: muted below 100, green from 100, blue from 250, primary from 500, gold from 1000 |
| Reputation.ColorBoundaries | src/utils/reputation.ts:39-45 | the colour changes exactly at 100, 250, 500 and 1000 (99/100, 249/250, 499/500, 999/1000) |
| Reputation.ColorFollowsLevel | src/utils/reputation.ts:39-45 | equal levels give equal colours; from 100 up the colour and the level determine each other; Novato and Iniciante share one colour |
| Reputation.ExampleScore | src/utils/reputation.ts:16-37 | 2 accepted answers, 3 helpful votes and 1 well-rated question score 55, an Iniciante |
| Profile.StatsOf | src/pages/Profile.tsx:129-196 | the five counts; the well-rated count is the number of the user's questions with more than 5 upvotes; well-rated questions never outnumber questions, accepted answers never outnumber answers |
| Profile.HelpfulVoteCount | src/pages/Profile.tsx:144-159 | upvotes on the user's answers; 0 when the user has no answers |
| Profile.QuestionIdsOf | src/pages/Profile.tsx:169-176 | one id per question of the user, and an id is listed iff it belongs to a question of the user |
| Profile.WellRatedBy | src/pages/Profile.tsx:174-187 | the user's well-rated questions, counted over the table, never outnumber the user's questions |
| Profile.WellRatedCountsOwnQuestions | src/pages/Profile.tsx:169-187 | inspecting the user's question ids one by one counts exactly the user's questions with more than 5 upvotes |
| Profile.CountWellRated | src/pages/Profile.tsx:174-187 | at most one per question inspected |
| Profile.NewUserStats | src/pages/Profile.tsx:129-196 | a user with no questions and no answers has all-zero stats |
| Profile.CountAcceptedAtMostAll | src/pages/Profile.tsx:139-166 | the accepted-answer count is at most the answer count |
| Profile.FetchStats | src/pages/Profile.tsx:129-196 | nothing without a signed-in user; otherwise the counts of `StatsOf`, well-rated questions counted one by one (strictly more than 5 upvotes) |
| Profile.ShouldAward | src/pages/Profile.tsx:234-249 | for questions, answers, helpful_votes and accepted_answers: awarded iff the matching count is at least the requirement; any other kind is never awarded |
| Profile.AwardsAreNew | src/pages/Profile.tsx:222-258 | at most one row per catalog badge; every row is for the current user, for a badge not already earned whose requirement is met |
| Profile.QualifyingBadgeIsAwarded | src/pages/Profile.tsx:231-258 | a catalog badge not held whose requirement is met is awarded |
| Profile.AwardedIff | src/pages/Profile.tsx:231-258 | a badge id is awarded exactly when it is not held and some catalog badge with that id qualifies |
| Profile.AwardsDistinct | src/pages/Profile.tsx:231-258 | with distinct catalog ids, one pass never inserts the same badge twice |
| Profile.NothingToAward | src/pages/Profile.tsx:231-258 | when every catalog badge is held or does not qualify, nothing is inserted |
| Profile.AwardIdempotent | src/pages/Profile.tsx:222-258 | a second pass with the same stats, after the first pass's rows are visible, inserts nothing |
| Profile.AwardKeepsUnique | src/pages/Profile.tsx:222-258 | if no (user, badge) row was duplicated before, none is after a pass |
| Profile.CheckAndAwardBadges | src/pages/Profile.tsx:215-268 | no signed-in user or no catalog: no change; otherwise the old rows followed by the new awards, judged against the ids held at the start; rows are never removed |
| Profile.FirstAnswerScenario | src/pages/Profile.tsx:231-258 | one answer earns the one-answer badge and not the ten-answer one |
| Profile.GetIconComponent | src/pages/Profile.tsx:270-279 | a result other than the fallback is the icon with the requested name |
| Profile.IconLookup | src/pages/Profile.tsx:270-279 | each of the five names gives its icon; any other name gives MessageSquare |
| VoteButtons.MatchCount | src/components/VoteButtons.tsx:71-80 | zero exactly when the user has no record on the target |
| VoteButtons.ExistingVote | src/components/VoteButtons.tsx:76-80 | the single-row lookup finds a record exactly when there is one and only one |
| VoteButtons.NextUserVote | src/components/VoteButtons.tsx:82-111 | the user's vote becomes none exactly when the same button was clicked again |
| VoteButtons.VoteTransition | src/components/VoteButtons.tsx:76-111 | after a click the pair's state is the next state of the old one, and the pair has at most one record |
| VoteButtons.VoteKeepsInvariant | src/components/VoteButtons.tsx:71-111 | at most one record per (user, target) and distinct ids are preserved; records of other users and targets are unchanged |
| VoteButtons.TallyAfterVote | src/components/VoteButtons.tsx:27-41 | each tally after a click differs from before by exactly the record inserted, deleted or re-kinded |
| VoteButtons.ToggleRoundTrip | src/components/VoteButtons.tsx:76-111 | from no vote, clicking the same button twice restores the table |
| VoteButtons.SwitchKeepsOneRecord | src/components/VoteButtons.tsx:90-97 | up then down leaves one record for the pair, a downvote |
| VoteButtons.VoteButtons.FetchVotes | src/components/VoteButtons.tsx:27-41 | the tallies are the numbers of up and down records on the target |
| VoteButtons.VoteButtons.FetchUserVote | src/components/VoteButtons.tsx:43-59 | the user's vote is shown when a single record is found, otherwise the display is left as it was |
| VoteButtons.VoteButtons.HandleVote | src/components/VoteButtons.tsx:61-115 | signed out: nothing changes; otherwise insert, delete or update as the ledger says, only an insert draws a fresh id, the shown vote is the new state, the tallies are recounted |
| QuestionDetail.AnswerSchema | src/pages/QuestionDetail.tsx:17-19 | accepted iff the trimmed text has 10 to 5000 characters; the value passed on is that trimmed infix |
| QuestionDetail.AnswerSchemaIgnoresPadding | src/pages/QuestionDetail.tsx:17-19 | leading white space does not change the outcome |
| QuestionDetail.SingleQuestion | src/pages/QuestionDetail.tsx:64-68 | the lookup finds a row exactly when one and only one row has the id |
| QuestionDetail.IncrementCountsOneView | src/pages/QuestionDetail.tsx:60-76 | the only row with the id gets its views raised by exactly one, a missing count read as 0, nothing else changes; no single row means no change |
| QuestionDetail.QuestionDetailPage.IncrementViews | src/pages/QuestionDetail.tsx:60-76 | the questions table becomes the one-view-more table |
| QuestionDetail.QuestionDetailPage.HandleSubmitAnswer | src/pages/QuestionDetail.tsx:140-192 | signed out or invalid: no insert; a failed insert keeps the draft; success stores the trimmed text, unaccepted, under a fresh id and clears the draft |
| QuestionDetail.AcceptChoosesOne | src/pages/QuestionDetail.tsx:197-207 | among the question's answers exactly those with the chosen id are accepted; answers of other questions, other than the chosen id, are unchanged; only the flag changes |
| QuestionDetail.AcceptKeepsAtMostOne | src/pages/QuestionDetail.tsx:197-207 | accepting an answer of this question keeps at most one accepted answer in every question, and the chosen one is accepted |
| QuestionDetail.AcceptOfForeignAnswerBreaksInvariant | src/pages/QuestionDetail.tsx:204-207 | the id-only second write can leave another question with two accepted answers |
| QuestionDetail.AcceptIdempotent | src/pages/QuestionDetail.tsx:197-207 | accepting the same answer twice gives the same table as once |
| QuestionDetail.QuestionDetailPage.HandleAcceptAnswer | src/pages/QuestionDetail.tsx:194-224 | anyone but the signed-in owner changes nothing; otherwise the clear then the set, each skipped when its write fails |
| AnswerCard.CanReply | src/components/AnswerCard.tsx:25 | true iff the signed-in user wrote the question or the answer |
| AnswerCard.ShowAcceptButton | src/components/AnswerCard.tsx:146 | shown iff the viewer owns the question and the answer is not accepted |
| AnswerCard.AcceptButtonImpliesCanReply | src/components/AnswerCard.tsx:25-146 | whoever sees the accept button may reply |
| AnswerCard.AcceptButtonAfterAccept | src/components/AnswerCard.tsx:146 | after an accept the button is gone from the chosen answer and shown on the others of the question |
| AnswerCard.AnswerCard.HandleSubmitReply | src/components/AnswerCard.tsx:87-138 | signed out or under 10 trimmed characters: no insert; success stores the trimmed text under a fresh id, clears the draft and closes the form; a failed insert keeps both |
| CreateQuestion.QuestionSchemaIssues | src/pages/CreateQuestion.tsx:15-19 | no issue iff the trimmed title has 10 to 200 characters, the trimmed content 20 to 5000, and the category id passes the UUID check |
| CreateQuestion.Parsed | src/pages/CreateQuestion.tsx:15-19 | title and content passed on trimmed and never longer; the category id as typed |
| CreateQuestion.AcceptedFormBounds | src/pages/CreateQuestion.tsx:15-19 | an accepted form's trimmed title and content are within bounds |
| CreateQuestion.ParsedIdempotent | src/pages/CreateQuestion.tsx:15-19 | parsing a parsed form changes nothing |
| CreateQuestion.CountProfiles | src/pages/CreateQuestion.tsx:78-86 | zero exactly when no profile row has the user's id |
| CreateQuestion.SubmitOutcome | src/pages/CreateQuestion.tsx:62-125 | nothing happens iff signed out; rejected iff the schema finds an issue, showing the first; "Perfil não encontrado" iff no single profile row; created under the next id iff all checks pass and the insert succeeds |
| CreateQuestion.HandleSubmit | src/pages/CreateQuestion.tsx:62-125 | ends as the outcome function says; only a created question changes the table: one row owned by that profile with the trimmed title and content, under a fresh id |
| EditProfile.ProfileSchemaIssues | src/components/EditProfileDialog.tsx:30-51 | no issue iff the trimmed full name has 1 to 100 characters and each present optional field, trimmed, is within 150, 500, 100 and 100 |
| EditProfile.NullIfEmpty | src/components/EditProfileDialog.tsx:103-106 | null exactly when the field is undefined or empty, otherwise the field itself |
| EditProfile.SavedFields | src/components/EditProfileDialog.tsx:99-108 | an accepted form stores a trimmed full name within bounds, and optional fields that are null or non-empty, trimmed and within bounds; an all-space bio is stored as null |
| EditProfile.UpdateProfiles | src/components/EditProfileDialog.tsx:99-108 | only the rows with the user's id change, by the saved values |
| EditProfile.UpdateIdempotent | src/components/EditProfileDialog.tsx:99-108 | saving the same values twice stores the same table as once |
| EditProfile.EditProfileDialog.HandleSubmit | src/components/EditProfileDialog.tsx:84-128 | an invalid form or an auth failure changes nothing; a failed update leaves the dialog open; success updates the row, closes the dialog and asks for one reload |
| Validations.PasswordIssues | src/lib/validations.ts:4-13 | no issue iff at least 8 characters with an A-Z, an a-z, a 0-9 and a character outside those |
| Validations.PasswordExampleAccepted | src/lib/validations.ts:4-13 | a password of length 8 with all four character classes passes |
| Validations.PasswordExampleTooShort | src/lib/validations.ts:4-13 | the same password one character short fails the length rule and nothing else |
| Validations.PasswordExampleNoSpecial | src/lib/validations.ts:4-13 | the same password without a special character fails that rule and nothing else |
| Validations.EmailIssues | src/lib/validations.ts:16-20 | no issue iff non-empty and accepted by the address check; the empty string gets the required message first |
| Validations.EmailOutput | src/lib/validations.ts:16-20 | the email passed on is the lower-cased text, of the same length |
| Validations.EmailOutputIdempotent | src/lib/validations.ts:16-20 | lower-casing twice is lower-casing once |
| Validations.UsernameIssues | src/lib/validations.ts:23-30 | no issue iff 3 to 30 characters, each in [a-zA-Z0-9_-] |
| Validations.FullNameIssues | src/lib/validations.ts:33-37 | no issue iff 2 to 100 characters, each an ASCII letter, in U+00C0 to U+00FF, or white space |
| Validations.FullNameAlphabet | src/lib/validations.ts:33-37 | accented names pass, and so do × and ÷; digits do not |
| Validations.SignupIssues | src/lib/validations.ts:46-57 | no issue iff every field passes and the two passwords are equal |
| Validations.MismatchOnConfirmPassword | src/lib/validations.ts:46-57 | there is an issue on confirmPassword exactly when the passwords differ, even alongside other issues, and it is the mismatch message |
| Validations.QuestionIssues | src/lib/validations.ts:65-75 | no issue iff a title of 10 to 200 and content of 20 to 5000 characters as typed, and a category id that passes the UUID check |
| Validations.AnswerIssues | src/lib/validations.ts:78-83 | no issue iff content of 10 to 5000 characters as typed |
| Validations.UntrimmedLengths | src/lib/validations.ts:78-83 | padding with spaces counts toward the length |
| Validations.ProfileUpdateIssues | src/lib/validations.ts:86-95 | no issue iff username and full name pass, a present bio has at most 500 characters, and a present avatar URL passes the URL check |
| Validations.BioIsOptional | src/lib/validations.ts:89-93 | an absent or null bio never causes an issue; a present one does exactly when over 500 characters |
| ErrorHandler.Values | src/lib/error-handler.ts:11-37 | the messages of a table, and only those |
| ErrorHandler.LookupExact | src/lib/error-handler.ts:57-60 | found exactly when some key equals the text, with that key's message |
| ErrorHandler.FirstSubstringMatch | src/lib/error-handler.ts:62-67 | found exactly when some lower-cased key occurs in the lower-cased text, with the message of the first such key in table order |
| ErrorHandler.SanitizeErrorMessage | src/lib/error-handler.ts:45-90 | the result is always the default, an auth message, a database message, or the network or timeout message; no usable text gives the default |
| ErrorHandler.NoTextGivesDefault | src/lib/error-handler.ts:49-55 | falsy errors, empty strings and objects without text give the default |
| ErrorHandler.DescriptionStandsIn | src/lib/error-handler.ts:49-55 | an object with an empty message is read through its description |
| ErrorHandler.ExactMatchHasPriority | src/lib/error-handler.ts:57-60 | an auth key gets its own message whatever else it contains |
| ErrorHandler.FirstDatabaseKeyWins | src/lib/error-handler.ts:62-67 | outside the auth table, the first matching database key in table order decides |
| ErrorHandler.FirstIsUnique | src/lib/error-handler.ts:62-67 | there is only one first match |
| ErrorHandler.DatabaseMatchIgnoresCase | src/lib/error-handler.ts:62-67 | texts equal up to case get the same database message |
| ErrorHandler.NetworkBeforeTimeout | src/lib/error-handler.ts:69-89 | past both tables a network word wins over "timeout", both matched case-sensitively, else the default |
| ErrorHandler.SanitizeInput | src/lib/error-handler.ts:97-107 | the input with every NUL removed and then only white space cut from its two ends: no NUL, no white space at either end, never longer; empty input gives "" |
| ErrorHandler.SanitizeInputIdempotent | src/lib/error-handler.ts:97-107 | cleaning twice is cleaning once |
| ErrorHandler.IsValidationError | src/lib/error-handler.ts:112-123 | false for a falsy error; otherwise true iff the message contains "validation", "invalid" or "required" |
| ErrorHandler.ValidationIgnoresDescription | src/lib/error-handler.ts:112-123 | the description is not consulted, and an object without a message is not a validation error |
| Search.FilterQuestions | src/pages/Search.tsx:127-132 | a question is kept iff it is in the input and matches the query; each matching question is kept as many times as it occurs, others not at all; never longer than the input |
| Search.FilterKeepsOrder | src/pages/Search.tsx:127 | the result is an order-preserving subsequence of the input |
| Search.AllMatchingKept | src/pages/Search.tsx:127-132 | a list whose every question matches is kept whole |
| Search.EmptyQueryKeepsAll | src/pages/Search.tsx:127-128 | the empty query keeps every question |
| Search.EmptyQueryOccursEverywhere | src/pages/Search.tsx:128-129 | the empty string occurs in every lower-cased title |
| Search.MatchIgnoresQueryCase | src/pages/Search.tsx:129-131 | a query and its lower-cased form keep the same questions |
| Search.UncategorisedMatchesOnText | src/pages/Search.tsx:131 | a question without a category matches only on title or content |
| Search.FilterIdempotent | src/pages/Search.tsx:127-132 | filtering twice with the same query is filtering once |
| Text.TrimStart | src/lib/error-handler.ts:104 | a suffix of the input; everything cut is white space; it does not start with white space |
| Text.TrimEnd | src/lib/error-handler.ts:104 | a prefix of the input; everything cut is white space; it does not end with white space |
| Text.Trim | src/lib/error-handler.ts:104 | no white space at either end, never longer than the input |
| Text.TrimCutsSpace | src/lib/error-handler.ts:104 | the trim is an infix of the input with only white space outside it |
| Text.TrimIdempotent | src/lib/error-handler.ts:104 | trimming twice is trimming once |
| Text.TrimOfTrimmed | src/lib/error-handler.ts:104 | a text with no white space at its ends is its own trim |
| Text.TrimIgnoresLeadingSpace | src/pages/QuestionDetail.tsx:18 | leading white space does not change the trim |
| Text.ToLower | src/pages/Search.tsx:129 | same length, each character lower-cased |
| Text.ToLowerIdempotent | src/pages/Search.tsx:129 | lower-casing twice is lower-casing once |
| Text.Contains | src/lib/error-handler.ts:64 | true iff the pattern occurs at some index |
| Text.OccursShift | src/lib/error-handler.ts:64 | occurrences in the tail are the occurrences after index 0, shifted by one |
| Text.RemoveChar | src/lib/error-handler.ts:101 | the character is gone and every other character is kept exactly as often as it occurs; a text without it is unchanged |
| Text.RemoveCharAppend | src/lib/error-handler.ts:101 | removal distributes over concatenation, so the kept characters stay in their order |

## Left out

- Calls to the hosted database, realtime subscriptions, navigation, toasts and console
  logging (`logError` included). Each read or write is one step on the in-memory
  tables. The rows other pages fetch for display are not modelled.
- Races between concurrent sessions: the check-then-insert of the badge awarder and of
  voting, and the two separate writes of accepting an answer. Only sequential runs are
  modelled. A failure of either accept write is a parameter.
- The awarder's stats are a snapshot passed in, not the page state it reads while
  running.
- Profile.CheckAndAwardBadges: assumes each badge insert succeeds. A failed insert only
  skips its toast in the source, and that row would be missing. A failed read of the
  earned badges, which the source treats as "none earned", is not modelled either: the
  earned set is always read from the table.
- VoteButtons.VoteButtons.HandleVote: the results of the delete, update and insert are
  not checked in the source, and the model lets every vote write succeed. The
  `onVoteChange` callback is not modelled.
- VoteButtons.VoteButtons.FetchVotes: a failed read, after which the source keeps the
  tallies it showed, is not modelled; the tallies are always recounted from the table.
- Profile.FetchStats: a failed count, which the source reads as 0, is not modelled;
  every count is read from the tables.
- The address, UUID and URL checks of the schema library are parameters, not
  definitions.
- JavaScript `toLowerCase` is modelled for ASCII and Latin-1 letters only. Text length
  counts code points, not UTF-16 units.
- `AUTH_ERROR_MESSAGES[...]` and the icon lookup are plain object lookups. Keys such as
  "constructor" would find inherited properties. The model looks up only the listed
  keys.
- Errors that are objects with a non-string `message` are not modelled. `ErrorValue`
  covers falsy values, strings, and objects with optional string fields.
- The route parameter of the question page is always present, so its absent-id guards
  (src/pages/QuestionDetail.tsx:61, 79, 112) are not modelled.
- The page's own loading of the question, the answers and the replies, and the
  `submitting`/`loading` flags, which only disable buttons.
- The 1000-character limit of the reply text area is enforced by the browser, not by
  `handleSubmitReply`, and is not modelled.
- The login, signup and password-recovery pages only chain the schemas and
  `sanitizeInput`, which are modelled; the avatar upload and the search bar are not
  part of this model.
