# Quiz back-end core in Dafny

This project models the service layer of a quiz back-end: users register and
log in, admins build sections of questions with answer options, users submit
answers, and the back-end grades each answer and keeps per-section progress.

The database is one immutable value, `Store.Store`:
- one map per table (users, sections, questions, options, answers), keyed by
  the auto-increment id;
- the progress rows as a sequence in insertion order;
- a single `next` id counter.

Every service call is a pure function from a store to a new store and a
result, or to an error. The errors are `NotFound`, `BadRequest`, `Conflict`
and `InternalServerError`. A plain `Error` thrown inside a request surfaces
as `InternalServerError`.

`Store.Valid` is the store invariant:
- every id is below the counter;
- there is at most one progress row per (user, section);
- emails are unique;
- every attached option belongs to a stored question;
- every answer names a stored user and a stored question;
- every question belongs to a stored section.

Every operation that changes the store preserves `Valid`.

Modules, following the source layout:
- `Common`: identifiers, `Option`, `Result`, JavaScript truthiness, a filter,
  and the least-id search. The search stands for a `findOne` that matches
  several rows.
- `Store`: the entities and the invariant.
- `RoleCodec`: the `User.role` column transformer.
- `PasswordRule`: the password regular expression and a one-pass checker
  proved equal to it.
- `UserProgressService`: section progress, completion, overall progress, and
  create/reset/delete of progress rows.
- `OptionService`: option CRUD and the correct-option lookup.
- `QuestionService`: creating a question with its options, patching a
  question and merging its option list, and deleting a question.
- `UserAnswerService`: grading, storing and updating answers, with the
  progress recomputation they trigger.
- `UserService`: registration, the two logins, and lookup, patch and delete
  of accounts.

Behaviours of the code worth knowing:
- **completionDate is restamped.** `updateUserProgress` sets `isCompleted`
  and stamps `completionDate` with the current time on every call where the
  user's answer count equals the section's question count. A second identical
  submission therefore moves the date; it does not stay as first set.
- **Completion counts attempts.** A section is complete when the answer
  count reaches the question count. Correctness does not enter, and 0 of 0
  counts as complete.
- **Options dropped by `updateQuestion` are detached, not deleted.** The
  ORM's default for a row removed from a one-to-many list is to clear its
  foreign key. So an option of the question that no patch names stays in the
  options table with no question; it no longer belongs to the question.
  This rests on the schema rule under "Left out": `Option.question` is
  declared `nullable: false` (option.entity.ts:15), and a database that
  enforced it would reject the cleared key, so the save would fail and
  surface as InternalServerError.
- **`loginAdmin` never checks the role.** Any account whose password
  matches passes it.
- **A rename re-hashes the password.** `updateUser` saves through an update
  hook that hashes any non-empty password. Changing only the name stores
  `hash(old hash)`.

## Model

| member | source | states |
|---|---|---|
| RoleCodec.EncodeRole | server/src/modules/user/user.entity.ts:39-47 | 'admin' encodes to 1 and 'user' to 0; every other string is rejected with a server error |
| RoleCodec.DecodeRole | server/src/modules/user/user.entity.ts:48-50 | the result is always a valid role, and it is 'admin' exactly when the column value is 1 |
| RoleCodec.DecodeEncode | server/src/modules/user/user.entity.ts:39-50 | saving then loading a valid role gives the same role back |
| RoleCodec.EncodeDecode | server/src/modules/user/user.entity.ts:39-50 | loading then saving any column value yields 1 for 1 and 0 for everything else |
| RoleCodec.DecodeNotInjective | server/src/modules/user/user.entity.ts:48-50 | the column values 0 and 2 both load as 'user' |
| PasswordRule.LookaheadIsContains | server/src/app.util.ts:3 | for a string of allowed characters, each lookahead holds iff its class occurs somewhere in the string |
| PasswordRule.AppRuleMeaning | server/src/app.util.ts:3 | the rule accepts exactly the 8 to 20 character strings over letters, digits and @$!%*?& that contain a lower-case letter, an upper-case letter, a digit and a special character |
| PasswordRule.RulesAgree | server/src/modules/user/user.entity.ts:24-34 | the entity's rule (non-empty, Length(8, 20), and the regex with {8,}) accepts exactly what the shared {8,20} rule accepts |
| PasswordRule.ForeignCharacterRejected | server/src/app.util.ts:3 | one character outside the allowed classes makes both rules reject |
| PasswordRule.LengthCapIsNeeded | server/src/modules/user/user.entity.ts:26-28 | a 21-character password matches the entity's regex, and only the length check rejects it |
| PasswordRule.CheckPassword | server/src/app.util.ts:3 | a single pass over the characters returns true iff the rule accepts the password |
| UserProgressService.SectionProgress | server/src/modules/userProgress/userProgress.service.ts:84-102 | progress is 0 for a section with no questions; otherwise progress times the question count equals 100 times the user's correct answers in the section; it is never negative, and it is exactly 100 iff the correct count equals the question count |
| UserProgressService.ProgressCanExceedHundred | server/src/modules/userProgress/userProgress.service.ts:91-101 | two correct answers to a section's only question give 200: nothing caps the percentage |
| UserProgressService.CreateUserProgress | server/src/modules/userProgress/userProgress.service.ts:22-40 | an existing row for (user, section) is returned with the store unchanged; otherwise exactly one row is appended, with no progress, not completed and no date; afterwards the lookup finds the returned row |
| UserProgressService.CreateUserProgressIdempotent | server/src/modules/userProgress/userProgress.service.ts:22-40 | creating twice is the same as creating once |
| UserProgressService.UpdateUserProgress | server/src/modules/userProgress/userProgress.service.ts:43-81 | afterwards the row for (user, section) exists, and its progress is the section progress. When the answer count equals the question count, the row is complete and stamped now; otherwise it keeps its earlier flag and date. Every other row and table is unchanged, and at most one row is added |
| UserProgressService.RecomputeIsStable | server/src/modules/userProgress/userProgress.service.ts:43-81 | recomputing a second time with no new answers gives the same progress and completion flag and leaves the answers alone; when the section is complete, the date is restamped with the second call's time |
| UserProgressService.GetUserProgressBySection | server/src/modules/userProgress/userProgress.service.ts:141-152 | the row for (user, section), or NotFound iff there is none |
| UserProgressService.ResetUserProgress | server/src/modules/userProgress/userProgress.service.ts:168-175 | NotFound iff no row exists; otherwise that row gets progress 0, not completed and no date, and every other row and all answers are unchanged |
| UserProgressService.ResetThenRecompute | server/src/modules/userProgress/userProgress.service.ts:168-175 | after a reset, the next recomputation marks the section complete again when every question still has an answer |
| UserProgressService.DeleteUserProgress | server/src/modules/userProgress/userProgress.service.ts:155-165 | NotFound iff no row exists; otherwise the row count drops by one, the row for (user, section) is gone, and every other row remains |
| UserProgressService.CompletedSections | server/src/modules/userProgress/userProgress.service.ts:186-194 | exactly the user's rows marked completed |
| UserProgressService.OverallProgress | server/src/modules/userProgress/userProgress.service.ts:105-121 | 0 for a user without rows; otherwise the mean of the freshly recomputed section percentages of the user's rows, never negative |
| UserProgressService.Mean | server/src/modules/userProgress/userProgress.service.ts:113-120 | the mean times the number of values equals their sum, and a mean of non-negative values is non-negative |
| UserProgressService.MeanOfBounded | server/src/modules/userProgress/userProgress.service.ts:113-120 | a mean of values in [lo, hi] lies in [lo, hi] |
| UserProgressService.OverallWithin | server/src/modules/userProgress/userProgress.service.ts:105-121 | when every section score of the user lies in [lo, hi], so does the overall figure |
| UserProgressService.OverallFullWhenEverySectionFull | server/src/modules/userProgress/userProgress.service.ts:105-121 | when every section of the user is at 100, the overall figure is 100 |
| OptionService.GetAllOptions | server/src/modules/options/option.service.ts:18-24 | every option, or NotFound iff the table is empty |
| OptionService.CreateOption | server/src/modules/options/option.service.ts:27-38 | one option with the given text and flag is added under a fresh id, attached to the question; nothing else changes |
| OptionService.CreatedOptionIsInAll | server/src/modules/options/option.service.ts:18-38 | after a create, listing all options succeeds and includes the new option with its text, flag and question |
| OptionService.CreatedOptionIsListed | server/src/modules/options/option.service.ts:27-52 | a created option is among the options returned for its question |
| OptionService.GetOptionsForQuestion | server/src/modules/options/option.service.ts:42-52 | exactly the question's options, or NotFound iff it has none |
| OptionService.UpdateOption | server/src/modules/options/option.service.ts:68-77 | NotFound iff the option is missing; otherwise text and flag are overwritten, the question link is kept, and the other options are unchanged |
| OptionService.FlaggedOptionMakesQuestionGradable | server/src/modules/options/option.service.ts:68-102 | after an attached option is flagged correct, the lookup of its question's correct option succeeds |
| OptionService.DeleteOption | server/src/modules/options/option.service.ts:80-86 | NotFound iff no row is removed; otherwise exactly that option is gone |
| OptionService.DeletedOptionIsGone | server/src/modules/options/option.service.ts:80-86 | a deleted option is not listed for any question |
| OptionService.GetCorrectOptionForQuestion | server/src/modules/options/option.service.ts:89-102 | an option of the question flagged correct, or NotFound iff there is none; among several, the one with the least id |
| OptionService.SingleCorrectOptionIsFound | server/src/modules/options/option.service.ts:89-102 | when exactly one option of the question is flagged correct, that option is returned |
| QuestionService.AppendOptions | server/src/modules/questions/question.service.ts:56-60 | the option table after the loop holds the old keys plus one fresh id per draft, keeps every earlier option, and attaches every new one to the question |
| QuestionService.AppendOptionsContents | server/src/modules/questions/question.service.ts:56-60 | draft i is stored under the i-th fresh id with its text and flag |
| QuestionService.AddOptions | server/src/modules/questions/question.service.ts:56-60 | the option loop adds exactly one option per draft under consecutive fresh ids, each attached to the question, keeps every earlier option and the store invariant, and changes no other table |
| QuestionService.AddOneIsCreateOption | server/src/modules/questions/question.service.ts:58 | one turn of the loop stores the draft exactly as `createOption` does |
| QuestionService.AddOptionsContents | server/src/modules/questions/question.service.ts:56-60 | the i-th draft becomes the option with the i-th fresh id, with its text and flag |
| QuestionService.CreateQuestion | server/src/modules/questions/question.service.ts:36-63 | InternalServerError, storing nothing, iff the section is missing. Otherwise one question is added under a fresh id, the id counter moves past one further id per draft, every stored option is kept unchanged, and users, sections, answers and progress are untouched |
| QuestionService.CreateQuestionAddsOnlyItsOptions | server/src/modules/questions/question.service.ts:52-60 | the options table gains exactly the ids right after the question's, one per draft, and no other key |
| QuestionService.CreatedQuestionOwnsItsOptions | server/src/modules/questions/question.service.ts:46-60 | the new question's options are exactly the ids that follow it, one per draft; no older option belongs to it |
| QuestionService.CreatedOptionsInOrder | server/src/modules/questions/question.service.ts:47-60 | the created question's options carry the drafts' texts and flags in order |
| QuestionService.Patched | server/src/modules/questions/question.service.ts:95-96 | a patch overwrites text and flag only where it defines them, and keeps the question link |
| QuestionService.Merge | server/src/modules/questions/question.service.ts:89-103 | the loop keeps the set of option ids and their questions; it records exactly the options of the question named by a truthy id |
| QuestionService.MergeIsLastWins | server/src/modules/questions/question.service.ts:90-97 | the left-to-right loop leaves each field as set by the last patch that names the option and defines that field |
| QuestionService.MergeOptions | server/src/modules/questions/question.service.ts:88-107 | a named option of the question takes the last-patch-wins fields; an unnamed one is detached from the question; options of other questions are unchanged and none is added |
| QuestionService.UpdateQuestion | server/src/modules/questions/question.service.ts:69-117 | NotFound iff the question is missing; InternalServerError iff a truthy section id names a missing section. Otherwise text and section change only when truthy values are given, the options are merged only when a list is given, and the other questions are unchanged |
| QuestionService.MergeKeepsExactlyTheNamed | server/src/modules/questions/question.service.ts:105-106 | after a merge, the question's options are exactly its former options that some patch named |
| QuestionService.UnnamedPatchesDropEveryOption | server/src/modules/questions/question.service.ts:98-106 | a list whose entries carry no id, the empty list included, leaves the question with no options |
| QuestionService.DeleteQuestion | server/src/modules/questions/question.service.ts:119-138 | NotFound iff the question is missing; otherwise the question, its options and its answers are removed, and nothing else changes |
| UserAnswerService.Create | server/src/modules/userAnswer/userAnswer.service.ts:31-74 | NotFound, storing nothing, iff the question is missing or has no correct option; otherwise InternalServerError, storing nothing, iff the user has no account (the answer's foreign key refuses the insert). Otherwise exactly one answer is added, carrying the user, question and text, and flagged correct iff the text equals the correct option's. Progress for the question's section is then recomputed |
| UserAnswerService.GradingIgnoresTheChoice | server/src/modules/userAnswer/userAnswer.service.ts:44-65 | when every option of the question flagged correct has the same text, an answer is graded correct iff it equals that text, whichever of those options the lookup returns |
| UserAnswerService.GradingIsExact | server/src/modules/userAnswer/userAnswer.service.ts:57 | against 'Paris', the submissions 'Paris ' and 'paris' are graded wrong and 'Paris' right |
| UserAnswerService.Update | server/src/modules/userAnswer/userAnswer.service.ts:98-143 | NotFound iff the answer, the question or its correct option is missing; otherwise InternalServerError iff the new user has no account; otherwise all four fields are overwritten with a fresh grade, and progress is recomputed for the new question's section |
| UserAnswerService.UpdateLeavesOldSectionStale | server/src/modules/userAnswer/userAnswer.service.ts:137-140 | moving an answer to another section leaves the old section's progress row as it was |
| UserAnswerService.Remove | server/src/modules/userAnswer/userAnswer.service.ts:146-150 | the result is true iff a row was deleted; exactly that answer is gone |
| UserAnswerService.FindByUserId | server/src/modules/userAnswer/userAnswer.service.ts:152-163 | exactly the user's answers, or NotFound iff there are none |
| UserAnswerService.CreatedAnswerIsFound | server/src/modules/userAnswer/userAnswer.service.ts:59-68 | after a submission, the user's answers are found and include the new one, with its text, as stored |
| UserService.Register | server/src/modules/user/user.service.ts:20-42 | BadRequest iff a field is empty; Conflict iff the email is taken; InternalServerError iff the role is unknown. Otherwise exactly one user is added, with the hashed password and the encoded role, and emails stay unique |
| UserService.Login | server/src/modules/user/user.service.ts:61-99 | BadRequest for an empty field or a failed password check; NotFound iff no account has the email. Otherwise the session holds that account with its loaded role |
| UserService.LoginAdmin | server/src/modules/user/user.service.ts:155-186 | fails exactly when the login fails, with the same error; on success it returns the account's name and email |
| UserService.LoginAdminAdmitsUsers | server/src/modules/user/user.service.ts:155-170 | an account with role 'user' passes the admin login |
| UserService.RegisterThenLogin | server/src/modules/user/user.service.ts:36-78 | after registering, logging in with the same credentials opens a session for the new account, provided the comparison accepts a password against its own hash |
| UserService.GetUserById | server/src/modules/user/user.service.ts:143-149 | the row, or NotFound iff the id is unknown |
| UserService.UpdateUser | server/src/modules/user/user.service.ts:188-202 | NotFound iff the id is unknown; InternalServerError iff a changed row has an unknown role or another account's email. Otherwise fields given in the patch replace the loaded ones and the rest are kept; an unchanged row is not written; a written row has its password hashed by the update hook; the other users are unchanged |
| UserService.RenameRehashesPassword | server/src/modules/user/user.service.ts:195-196 | changing only the name stores the hash of the stored hash |
| UserService.DeleteUser | server/src/modules/user/user.service.ts:204-215 | NotFound iff the id is unknown; otherwise the user and their answers are removed and nothing else changes |
| UserService.DeleteUserLeavesNoAnswers | server/src/modules/user/user.service.ts:204-215 | after deleting an account, looking up its answers gives NotFound |
| UserService.DeleteThenLookup | server/src/modules/user/user.service.ts:204-215 | after deleting, both looking the account up and logging in with its email give NotFound |

## Left out

- Hashing and password comparison are the library's and are parameters of the model (`hash`, `matches`). JWT signing, cookies and the JSON response bodies are I/O, so a call yields only the outcome or the error kind.
- `new Date()` is the `now` parameter.
- Progress is a real number. The column's float rounding (precision 5, scale 2) is not modelled.
- Two requests running at once, such as the save-then-recompute pair of answer submission, are not modelled; every call runs to completion alone.
- `register` (user.service.ts:102-141) is a verbatim copy of `doUserRegistration`; `UserService.Register` models both.
- The plain reads outside the core are not modelled. These are `getUserProgress`, `getAllUserProgress`, `findAll`, `findOne`, `getAllQuestions`, `getQuestionsBySection`, `getOptionById`, `getAllUsers` and `findQuestionById`. `findOne` (answers), `getOptionById` and `findQuestionById` appear only as the lookups their callers perform.
- The section service, the controllers and DTO validation are left out. Only the checks the services themselves make are modelled; the password rule is modelled as a predicate of its own. Because no modelled operation deletes a section, the invariant that every question's section is stored comes from the code's own checks in `createQuestion` and `updateQuestion`, not from a database key.
- The schema is not synchronised from the entities (typeorm.config.ts:22), so the database's own constraints are an assumption. The rule is: constraints the entities opt into with an explicit action are kept, and column nullability and plain foreign keys are not enforced.
  - Kept: the unique email index (user.entity.ts:17-19), which makes `UserService.UpdateUser` fail on another account's email; and the two answer foreign keys declared with `onDelete: 'CASCADE'` (userAnswer.entity.ts:16-19), in full: an insert or update naming a user or question that is not stored is refused, which surfaces as InternalServerError, and answers go with their user or question on delete.
  - Not enforced: every `nullable: false`, namely `UserProgress.completionDate` (userProgress.entity.ts:16), `Option.question` (option.entity.ts:15), and the default NOT NULL on `progress`. Also not enforced: the foreign keys from progress rows to users and sections. The reason is that the code breaks these on its main paths. `createUserProgress` inserts a row with neither `progress` nor `completionDate`, and `resetUserProgress` writes `completionDate = null`. A database enforcing them would reject every answer submission, every user delete with progress rows, and every option merge that drops an option.
- Queries compare strings exactly; a case-insensitive database collation is not modelled.
- `calculateOverallProgress` loads rows without their section relation, so `progress.section.id` would fail at run time. The model uses each row's section id, as intended.
- UserAnswerService.Update: updateUserAnswer.dto.ts marks `userId`, `questionId` and `answerText` all optional; the model takes all three as present. An absent `answerText` would be compared as `undefined` with the correct option's text, so the answer would be graded wrong and stored without text. An absent id reaches the ORM as `undefined`, and what the ORM does with it is not modelled.
- OptionService.UpdateOption: text and flag are taken as given. An absent DTO field would write `undefined`, and what the ORM does with that is not modelled.
- UserService.UpdateUser: the update DTO file is not part of this model. Its fields are taken to be name, email, password and role, each optional.
- UserService.UpdateUser: the ORM's change detection is modelled as comparing the assigned entity with the loaded one.
- OptionService.GetCorrectOptionForQuestion: `findOne` for the correct option has no ordering (option.service.ts:90-95), so with several options flagged correct the database may return any of them. The model takes the least id. This fixes which text `UserAnswerService.Create` and `UserAnswerService.Update` grade against when those options' texts differ. `UserAnswerService.GradingIgnoresTheChoice` shows the choice does not matter when they agree.
- UserService.Login: among several accounts with one email, the least id is taken. The unique index rules this out in a valid store.
