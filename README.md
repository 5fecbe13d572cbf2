# Verified model of the user-record table of SEC_Projet

SEC_Projet is a small grade-book for students and teachers, with a hard-coded
super-user `admin`. Its store, `src/db.rs`, keeps every account in one
process-wide table: an ordered list of records `{id, email, name, pw_hash, grades}`.
Five operations read or change that table in place:

- `login` checks the super-user against a constant hash. For anybody else it
  returns the `{id, email}` of the first record whose email and password both match.
- `create_account` asks the policy engine first. Then it appends a record with
  no grades. A teacher's id is also granted the teacher role in the policy file.
- `reset_password` refuses the super-user. It then checks a six-digit one-time
  code and replaces the hash of the first record with the actor's email.
- `enter_grade` asks the policy engine first. It accepts a grade in [0, 6] and
  appends it to the first record with the given email.
- `show_grades` lists every record that has grades when the engine allows it.
  Otherwise it lists only the records with grades that carry the actor's own id.

The model is a Dafny class, `Db.Database`, with a `users: seq<User>` field and
one method per operation. Each method has the source's indexed scan with early
return as a `while` loop. Each method is proved equal to a function of module
`Table`, and the lemmas of `Table` state what the operations promise.

Outside pieces are parameters of the methods:
- the password checker `verify(hash, pw)` is a function parameter;
- the policy engine `access_control::auth(user, action)` is a function parameter;
- the result of `padded_hash` on the prompted password is a value parameter;
- the fresh `Uuid` string is a value parameter;
- the random reset code is a value parameter in the range `gen_range` promises.

The prompts that re-ask until the input passes a test (the code prompt's
`inside(100000..999999)`, the grade prompt's `add_test`) take the sequence of
answers the user types. `Table.Prompted` picks the first answer that passes.
When no answer passes, the prompt is still waiting and nothing after it happens.

Persistence is two ghost fields:
- `disk` is the table as last written to the database file;
- `teacherGrants` lists the ids appended to the policy file as teacher facts.

Behaviours of the code that the model keeps as they are:
- `reset_password` returns at src/db.rs:179, right after installing the new
  hash and before the save at src/db.rs:188 (see Findings).
- `enter_grade` returns at src/db.rs:207, right after appending the grade and
  before the save at src/db.rs:213-214; that save runs only when no record has
  the email (see Findings).
- `create_account` appends at src/db.rs:122 without looking for an existing
  record with the same email. So a later record with the same email can log in
  (src/db.rs:85-87), and a reset by its owner changes the earlier record
  (src/db.rs:175-178, `Table.ResetMissesLaterDuplicate`).

## Model

| member | source | states |
|---|---|---|
| `Table.FirstIndex` | src/db.rs:85-93 | the index returned is the first one whose element passes the test; `None` exactly when no element passes |
| `Table.Prompted` | src/db.rs:167-170 | a re-asking prompt returns the first typed answer that passes its test, and that answer passes it; `None` only when no answer passes |
| `Table.Authenticate` | src/db.rs:76-96 | for `"admin"` the result depends only on `verify(ADMIN_HASH, pw)` and never on the table; otherwise it is `None` iff no record has this email and a hash accepting the password, else the identity of the first such record in table order |
| `Db.Database.Login` | src/db.rs:69-97 | the loop returns exactly `Authenticate` of the current table and changes nothing |
| `Db.Database.constructor` | src/db.rs:50-55 | the table starts as the file's contents, or empty when the file is missing or unreadable; no teacher grants yet |
| `Db.Database.CreateAccount` | src/db.rs:99-150 | denied iff the engine refuses the requested account kind, and then nothing changes; otherwise exactly one record `{id, email, name, hash, []}` is appended at the end, earlier records are unchanged, a teacher's id is granted, and the table is written out |
| `Table.CreateKeepsWellFormed` | src/db.rs:118-128 | appending a record with a UUID id keeps every id different from `"admin"` and every grade in [0, 6] |
| `Db.Database.ReplaceFirstHash` | src/db.rs:174-181 | the loop installs the hash exactly as `WithHash` says and reports whether some record had the email |
| `Table.WithHash` | src/db.rs:175-181 | same length; only hash fields can change; the first record with the email gets the new hash; every other record, later duplicates included, is unchanged |
| `Db.Database.ResetPassword` | src/db.rs:152-189 | the super-user is refused with nothing changed; no accepted code changes nothing; the accepted code lies in [100000, 999999); a wrong code leaves the table unchanged and writes it out; the right code applies `WithHash` to the actor's email, writing the table out only when no record matched |
| `Db.Database.ResetPasswordDurable` | src/db.rs:172-188 | as `ResetPassword`, except that the table is written out on every path that reaches it, the successful one included |
| `Table.ResetThenLogin` | src/db.rs:172-181 | after a reset whose new hash accepts `pw`, logging in with the email and `pw` yields the first record with that email |
| `Table.ResetRevokesOldPassword` | src/db.rs:175-181 | when the email is on one record only and the new hash rejects the old password, that password no longer logs in |
| `Table.ResetMissesLaterDuplicate` | src/db.rs:175-180 | with two records sharing an email, a reset changes only the earlier one; the later one keeps its old hash |
| `Table.ResetKeepsWellFormed` | src/db.rs:178 | replacing a hash keeps the table well-formed |
| `Db.Database.AppendFirstGrade` | src/db.rs:202-209 | the loop appends the grade exactly as `WithGrade` says and reports whether some record had the email |
| `Table.WithGrade` | src/db.rs:203-209 | same length; only grade lists can change; the first record with the email gets the grade at the end of its list; every other record is unchanged |
| `Db.Database.EnterGrade` | src/db.rs:191-215 | denied iff the engine refuses `ENTER_GRADE`, and then nothing changes; no grade in [0, 6] typed changes nothing; otherwise the accepted grade lies in [0, 6] and `WithGrade` is applied, writing the table out only when no record matched |
| `Db.Database.EnterGradeDurable` | src/db.rs:202-214 | as `EnterGrade`, except that the table is written out whenever a grade reached it |
| `Table.GradeKeepsWellFormed` | src/db.rs:201-206 | appending a grade that passed the prompt's test keeps every grade in [0, 6] |
| `Table.GradesAppendOnly` | src/db.rs:206 | every record's old grade list is a prefix of its new one: grades are never removed or reordered |
| `Db.Database.ShowGrades` | src/db.rs:217-241 | the loop returns exactly `Visible` of the current table for the engine's answer on `SHOW_GRADES`, and changes nothing |
| `Table.Visible` | src/db.rs:226-237 | the reports of rows with grades that the rule lets through, in table order, never more reports than rows |
| `Table.VisibleSingle` | src/db.rs:229-236 | a single row is listed exactly once when the rule lets it through and not at all otherwise |
| `Table.VisibleAppend` | src/db.rs:227-237 | listing two tables one after the other gives the two listings one after the other, so the output keeps table order |
| `Table.VisibleSound` | src/db.rs:229 | every listed report belongs to a record with grades that is either allowed for everybody or carries the actor's id |
| `Table.VisibleComplete` | src/db.rs:229-236 | every record with grades that the rule lets through is listed |
| `Table.OthersHidden` | src/db.rs:219-229 | an actor refused `SHOW_GRADES` sees only reports of records carrying its own id |
| `Table.AdminSeesNoGradesUnlessAllowed` | src/db.rs:219-229 | in a well-formed table, the super-user refused `SHOW_GRADES` sees nothing, since no record carries its id |
| `Db.UnsavedResetScenario` | src/db.rs:172-179 | a one-record table after a successful reset differs from what was last written to the file |
| `Db.UnsavedGradeScenario` | src/db.rs:199-207 | a one-record table after a successful grade entry (an out-of-range answer first re-asked) differs from what was last written to the file |

## Left out

- File persistence (`read_database_from_file`, `save_database_to_file`, JSON encoding) is the ghost field `disk`. Write failures, which abort the process, are not modelled.
- The policy-file append for a new teacher is the ghost field `teacherGrants`, holding the id. The exact CSV line text is not modelled.
- Password hashing (`padded_hash`, argon2) and `verify` are outside collaborators. The model takes the freshly computed hash as a value and the checker as a function. The bytes of the constant admin hash are reproduced but never interpreted.
- `access_control::auth` is a function parameter. Its rule file, its asynchrony and the `block_on` bridge are not modelled.
- The `Mutex` and `lazy_static` global become one `Database` object. Each method runs as one step because the program is single-threaded. The lock covers only the table access (src/db.rs:121-148, 174-183, 202-213), and the save takes it again (src/db.rs:255). Interleavings between the two are not modelled.
- Random numbers and ids: the reset code is a parameter, required to lie in [100000, 999999) as `gen_range` promises. The UUID is a parameter, and `IsUuid` states its text form for the well-formedness lemma.
- Sending the code by email (`send_password_mail`) is fire-and-forget I/O and is not modelled.
- The prompts (`ask_for_email`, `ask_for_pw`, `ask_for_name`, `input()`) become parameters. Whatever checks `ask_for_email` makes on an address is not part of this model.
- Grades are `f32` in the program and `real` here. Rounding is not modelled, and neither is NaN, which the grade test rejects anyway.
- The mean printed by `show_grades` and the text formatting of its output are not modelled. The model returns the list of `{email, grades}` reports in output order.
- Logging (`trace!`, `info!`, `warn!`) and `println!` messages are not modelled. The outcome values say which message path was taken. `NoRecord` is the path on which the code logs a successful reset.
- `src/actions.rs` is menu dispatch and is not part of this model. Its calls do not match the signatures in `src/db.rs`.

## Findings

| source | as written | input that shows it | evidently intended | confidence | as-written member | corrected member |
|---|---|---|---|---|---|---|
| src/db.rs:172-188 | on the right code, the hash is replaced and the function returns at line 179, before the save at line 188; the save and the "Succesfull password reset" log run only when no record matched | a one-record table, actor with that record's email, code 123456 typed correctly | install the hash, then log success and write the table out | high, not executed | `Db.Database.ResetPassword` (shown by `Db.UnsavedResetScenario`) | `Db.Database.ResetPasswordDurable` |
| src/db.rs:202-214 | a recorded grade returns at line 207; the save at line 214 runs only when no record has the email | a one-record table, teacher enters 4.5 for that record's email | write the table out after recording a grade | medium, not executed | `Db.Database.EnterGrade` (shown by `Db.UnsavedGradeScenario`) | `Db.Database.EnterGradeDurable` |
