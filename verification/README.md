# Credential rules and test-authoring lists of the bootcamp admissions admin

This project models, in Dafny, the two pieces of sequential logic in the
bootcamp admissions system:

- the credential and identity rules of the identity schema shared by
  `User`, `Applicant` and `Instructor` (`app/models/user.server.model.js`):
  the field validators and email pattern, the pre-save hook that salts and
  hashes a password, `hashPassword`, `authenticate` and
  `findUniqueUsername`;
- the answer-choice and answer-flag logic of the admin controller's test
  authoring and test view
  (`public/modules/admin/controllers/admin.client.controller.js`):
  `setShow`/`isSelected`, `addNewChoice`, `deleteChoice` with `doDelete`,
  `showAddChoice`, `checkAllanswers` and the `'option'` branch of `save`.

Modules:

| file | module | models |
|---|---|---|
| `options.dfy` | `Options` | the `Option` type for `null`, `undefined` and thrown errors |
| `number_text.dfy` | `NumberText` | decimal text of a number, its inverse, injectivity, length bound |
| `email.dfy` | `Email` | the `/.+\@.+\..+/` test: regular-expression semantics and a linear scan proved equal |
| `credentials.dfy` | `Credentials` | validators, `hashPassword`, the pre-save hook, `authenticate` |
| `usernames.dfy` | `Usernames` | `findUniqueUsername` over a finite store |
| `choice_editor.dfy` | `ChoiceEditor` | the choice and option lists of the test-authoring form |
| `test_editor.dfy` | `TestEditor` | saving one option in the test view, `checkAllanswers` |

Abstractions:

- The key-derivation function (PBKDF2 of section 5.2 of RFC 8018, 10000
  iterations, 64-byte key, base64 text) is the parameter
  `h: (string, Salt) -> string`. Lemmas that need it collision-free and
  never empty say so with `SoundHash`.
- The 16 random salt bytes are the parameter `newSalt` of the hook.
- The user collection is a `Store`: the set of taken usernames and the
  set of candidates whose lookup errors.
- The three schemas keep identical copies of `hashPassword`,
  `authenticate` and `findUniqueUsername` (lines 251-273, 278-288,
  293-348), so one definition of each models all three. The three hooks
  differ only in the embedded-Applicant branch. `PreSave` keeps that branch,
  and `PreSaveUniform` proves that every kind stores the same credentials.
- String fields hold their stored values, which the schema's `trim`
  setter has already trimmed. An absent password or salt is the empty
  value; the hook's and `hashPassword`'s truthiness tests treat the two
  alike.
- A choice object `{id: 'choice' + n}` is kept as `Choice(n)`, and `Id`
  gives its text.
- An answer index is kept as the integer `parseInt` reads from it. The
  answers live in the test object `$scope.test`, which the controller
  creates only when a test is loaded; until then `deleteChoice` throws.
- Lengths are counted in UTF-16 code units, as JavaScript's `length` is.

Two readings of the controller that the model makes explicit:

- The renumbering loop of `doDelete` iterates `for (var i in ...)`, whose
  keys are strings `"0"`, `"1"`, …. So after a deletion the ids run from
  `choice0`, while the initial ids and `addNewChoice` count from 1.
  `WellNumbered` shows that ids stay distinct under any mix of the two.
- In the `'option'` branch of `save`, the string key `i` is compared with
  `===` to the numeric `optionIndex`. So the `continue` never fires and
  the loop clears every option, the edited one included. That option is
  overwritten right after, so the net effect is the intended one:
  `SavedOptions` states it.

## Model

| member | source | states |
|---|---|---|
| `Email.EmailMatches` | app/models/user.server.model.js:49 | the linear scan accepts an email exactly when some substring matches `.+@.+\..+`, where `.` excludes the four line terminators (unanchored test) |
| `Credentials.Utf16Length` | app/models/user.server.model.js:25 | `password.length` counts UTF-16 code units: the character count plus one for each character outside the Basic Multilingual Plane, so between the character count and twice it |
| `Credentials.LocalStrategyProperty` | app/models/user.server.model.js:14-16 | a non-empty value always passes; a local or updated record fails on an empty value; a never-updated external record passes whatever the value |
| `Credentials.LocalStrategyPassword` | app/models/user.server.model.js:21-26 | any password passes for a non-local provider; for a local one it passes iff it is longer than 6 UTF-16 units |
| `Credentials.EmailMatchRule` | app/models/user.server.model.js:49 | an email passes the `match` rule iff it is empty or contains a match of the pattern |
| `Credentials.Failures` | app/models/user.server.model.js:31-67 | each field rule is reported iff it fails: the three property rules, the pattern on a non-empty email, the required username and provider, and the local password length |
| `Credentials.LocalValidity` | app/models/user.server.model.js:14-67 | a local account passes every field rule iff both names and the email are non-empty, the email matches, a username is given and the password is longer than 6 UTF-16 units |
| `Credentials.ExternalValidity` | app/models/user.server.model.js:14-26 | an external account never updated is exempt from the name, email and password rules; it is valid iff its email is empty or matches the pattern and a username is given |
| `Credentials.UpdatedExternalNeedsProperties` | app/models/user.server.model.js:14-16 | once `updated` is set, an external account with an empty first name, last name or email fails validation |
| `Credentials.HashPassword` | app/models/user.server.model.js:251-257 | with no salt or an empty password the argument comes back unchanged; otherwise the result is the key derivation of password and stored salt |
| `Credentials.Authenticate` | app/models/user.server.model.js:278-280 | without a salt, or for an empty candidate, it is equality of stored and candidate password; otherwise equality of the stored password with the candidate's hash under the stored salt |
| `Credentials.PreSave` | app/models/user.server.model.js:214-221 | a password longer than 6 UTF-16 units gets the new salt and becomes its hash under that salt; otherwise the record is unchanged; no other field changes in either case |
| `Credentials.PreSaveUniform` | app/models/user.server.model.js:223-246 | User, Instructor, top-level Applicant and embedded Applicant hooks store the same password and salt for the same input |
| `Credentials.AuthenticateUnsalted` | app/models/user.server.model.js:251-280 | on a record without a salt, authentication is plain equality of stored and candidate password |
| `Credentials.AuthenticateAfterSave` | app/models/user.server.model.js:214-280 | right after the hook hashes plaintext `p`, `p` authenticates, and a candidate authenticates iff it hashes to the same value under the new salt |
| `Credentials.AuthenticateExactlyAfterSave` | app/models/user.server.model.js:214-280 | with a collision-free, never-empty hash, after saving `p` exactly `p` authenticates |
| `Credentials.ResaveBreaksLogin` | app/models/user.server.model.js:214-221 | saving a hashed record again re-hashes the stored hash with a new salt, after which the original plaintext no longer authenticates |
| `Credentials.ResaveExample` | app/models/user.server.model.js:214-221 | concrete instance: "hunter22" saved twice is stored as "##hunter22" under a `#`-prefix hash and refused |
| `Credentials.PreSaveOnChange` | app/models/user.server.model.js:214-221 | the hook guarded by "password differs from the loaded one": hashes as the source does when it differs, leaves the record alone otherwise |
| `Credentials.EditAndResaveKeepsLogin` | app/models/user.server.model.js:214-221 | with the guarded hook, a saved user loaded, edited in other fields and saved again still authenticates with the original password |
| `Credentials.NewPasswordOnChange` | app/models/user.server.model.js:214-221 | with the guarded hook and a collision-free hash, setting a new password and saving makes exactly that password authenticate |
| `Usernames.Candidate` | app/models/user.server.model.js:295 | suffix 0 adds nothing; a positive suffix appends only digits, with no leading zero, that read back as that number |
| `Usernames.StopSuffix` | app/models/user.server.model.js:293-310 | the search stops at the first suffix from the start whose candidate errors or is free, every earlier candidate being taken |
| `Usernames.FindUniqueUsername` | app/models/user.server.model.js:293-310 | a result is an untaken `username + suffix` with every earlier candidate taken; `None` exactly when a lookup errors first |
| `Usernames.AlexExample` | app/models/user.server.model.js:293-310 | with "alex" and "alex1" taken the result is "alex2"; on an empty store it is "alex" |
| `ChoiceEditor.SetShow` | public/modules/admin/controllers/admin.client.controller.js:18-24 | afterwards `isSelected(w)` holds iff `w` is the value set; nothing else changes |
| `ChoiceEditor.IsSelected` | public/modules/admin/controllers/admin.client.controller.js:22-24 | holds iff showing that value would leave the state unchanged |
| `ChoiceEditor.AddNewChoice` | public/modules/admin/controllers/admin.client.controller.js:26-35 | appends one choice with id `'choice' + (old length + 1)` to list 1 when `num` is 1 and to list 2 otherwise; the rest of the state is unchanged |
| `ChoiceEditor.Splice` | public/modules/admin/controllers/admin.client.controller.js:69-70 | removing position `i` drops one element and re-inserting it gives the original; an index past the end removes nothing |
| `ChoiceEditor.Renumber` | public/modules/admin/controllers/admin.client.controller.js:72-74 | every remaining choice at position `k` has id `'choice' + k` |
| `ChoiceEditor.DoDelete` | public/modules/admin/controllers/admin.client.controller.js:68-75 | both lists lose position `i`; remaining options keep their order; choices are renumbered from 0 |
| `ChoiceEditor.AdjustAnswer` | public/modules/admin/controllers/admin.client.controller.js:40-43 | an answer on the old last index moves down by one; any other answer is unchanged |
| `ChoiceEditor.DeleteChoice` | public/modules/admin/controllers/admin.client.controller.js:37-66 | without a test object it fails before deleting anything; otherwise the selected question's lists become the `doDelete` result and its answer follows the rule checked against the old length, and nothing else changes |
| `ChoiceEditor.DeleteKeepsAnswerInRange` | public/modules/admin/controllers/admin.client.controller.js:37-56 | an in-range answer stays in range after deleting from at least two choices |
| `ChoiceEditor.DeleteEarlierChoiceMovesAnswer` | public/modules/admin/controllers/admin.client.controller.js:37-56 | deleting a choice before the answer leaves the index alone, so it then names the option that followed the chosen one |
| `ChoiceEditor.ShowAddChoice` | public/modules/admin/controllers/admin.client.controller.js:77-82 | true iff the choice equals the last choice of the selected list; `None` on an empty list, where the source throws |
| `ChoiceEditor.InitialWellNumbered` | public/modules/admin/controllers/admin.client.controller.js:10-11 | the initial lists have distinct ids numbered within their length |
| `ChoiceEditor.AddNewChoicePreserves` | public/modules/admin/controllers/admin.client.controller.js:26-35 | adding a choice keeps ids distinct and within the length |
| `ChoiceEditor.DeleteChoicePreserves` | public/modules/admin/controllers/admin.client.controller.js:68-75 | deleting a choice keeps ids distinct and within the length |
| `ChoiceEditor.ShowAddChoiceOnlyLast` | public/modules/admin/controllers/admin.client.controller.js:77-82 | in a well-numbered list the add button shows on the last choice and on no other |
| `TestEditor.SameFrom` | public/modules/admin/controllers/admin.client.controller.js:577-582 | the loop from position `i` returns true iff every later answer equals the first |
| `TestEditor.CheckAllAnswers` | public/modules/admin/controllers/admin.client.controller.js:575-583 | on a non-empty list, true iff every option's answer equals the first option's; `None` on an empty list, where the source throws |
| `TestEditor.NormalizeAnswer` | public/modules/admin/controllers/admin.client.controller.js:597-600 | `undefined` and the text "undefined" become `false`; every other answer is kept |
| `TestEditor.ClearAnswers` | public/modules/admin/controllers/admin.client.controller.js:603-608 | every option keeps its text and gets the answer `false` |
| `TestEditor.SavedOptions` | public/modules/admin/controllers/admin.client.controller.js:595-610 | the edited option takes the draft's text and normalised answer; a `true` answer sets every other option's answer to `false`, keeping its text; otherwise no other option changes |
| `TestEditor.SaveOption` | public/modules/admin/controllers/admin.client.controller.js:594-622 | other questions and flags untouched; the draft gets the normalised answer; `displayerrmsg[index]` is set iff all options share one answer |
| `TestEditor.SaveTrueClearsMessage` | public/modules/admin/controllers/admin.client.controller.js:603-618 | saving a `true` answer on a question with two or more options clears its "no answer selected" flag |
| `TestEditor.SaveFalseFlagsAllFalse` | public/modules/admin/controllers/admin.client.controller.js:603-618 | saving a `false` answer sets the flag iff every option's answer is now `false` |

## Left out

- Schema declarations, the ORM's persistence, discriminators and model
  registration: records are plain datatypes. The Applicant and Instructor
  fields that no credential rule reads (scores, paths, status, skill sets,
  assessments) and the Bootcamp, Skillset and Assessment schemas are not
  modelled.
- `Credentials.Failures`: how the ORM aggregates errors per path and
  orders them is not modelled; the model gives the set of failing rules,
  each with its message from the schema.
- The internals of `crypto.pbkdf2Sync`, `crypto.randomBytes` and the
  Buffer/base64 conversions are foreign calls: the hash is a parameter and
  the salt is a 16-byte parameter. The schema declares `salt` as a String;
  the model keeps bytes and treats only the empty value as missing.
- The salt's randomness is not modelled: `newSalt` is any 16-byte value,
  so the model does not promise that it differs from the previous salt.
- The asynchronous `findOne` callback chain of `findUniqueUsername` is
  modelled as a sequential search over a set; concurrency is not modelled.
  A non-numeric first `suffix` argument is not modelled: the suffix is a
  natural number.
- `$http` calls, `$location` navigation, `console.log` and the Angular
  scope binding. This covers `create`, `createCamp`, the list and view
  functions, `updateSkill`, `updatePlacement`, `deleteUser`,
  `changeStatus`, `createTest`, `createQuestion`, `changeTestName` and
  `updateQuestion`, which are network and UI glue.
- The `'testName'` and `'question'` branches of `save` are plain
  assignments followed by a network call.
- The editor toggles `enableEditor`/`disableEditor` (including the call
  at the end of `save`) and `changeAnsVal` only flip UI flags.
- Date defaults and timestamps depend on the wall clock; `updated` is only
  tested for presence.
- `Credentials.Authenticate`: a record loaded without its password field
  is modelled with the empty password. The source's `===` at line 279
  tells `undefined` from `''`, so there `authenticate('')` fails on such a
  record, while the model accepts it.
- `TestEditor.SaveOption` and `ChoiceEditor.Splice`: indexes are taken to
  come from the view's repeat and so to be in range and non-negative. The
  model does not cover the TypeError the source throws for an
  out-of-range question or option index, nor `splice` with a negative
  index, which counts from the end.
- `ChoiceEditor.AdjustAnswer`: `answerOne - 1` on a non-integer string
  such as "2.5" is not modelled; the answer is the integer `parseInt`
  reads.

## Findings

| source | as written | input that shows it | evidently intended | confidence | as-written member | corrected member |
|---|---|---|---|---|---|---|
| app/models/user.server.model.js:214-221 | the hook re-hashes whenever the stored password is longer than 6 characters, including a password that is already a hash | a local user saves password "hunter22", then the record is saved again after any other change; the stored value becomes the hash of the hash and "hunter22" no longer authenticates | salt and hash only when the password differs from the one loaded | medium, not executed | `Credentials.ResaveBreaksLogin` | `Credentials.PreSaveOnChange` |
