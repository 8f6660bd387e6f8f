# Social Insecurity: a Dafny model of its decision logic

Social Insecurity is a small Flask social network: users register and log in,
post text with an optional image, and add friends. A stream page shows their
own posts and their friends' posts. A separate script is meant to rehash
stored passwords into bcrypt form; as written it computes the hashes but
stores none (see "## Findings"). This project models the parts of it that
make decisions, and proves what those decisions guarantee:

- **Upload gate** (`Utils`, from `social_insecurity/utils.py`).
  - `allowed_file` lower-cases the text after the last `.` of the filename and looks it up in an allow-set.
  - `allowed_mime_type` rewinds the upload stream, sniffs its first 1024 bytes and rewinds again.
  - The upload stream is a class with a read position.
- **Form validators** (`Forms`, from `social_insecurity/forms.py`).
  - The registration form's password rules and required fields, and the login form's required fields, are predicates.
  - The password rules return the validators' own error messages.
- **Tables** (`Tables`). The Users, Friends and Posts tables are `seq` fields of a `Database` class.
  - The insert methods mirror the `INSERT` statements the routes run.
  - `UpdatePassword` is the `UPDATE` that the migration script prepares but never sends. Only the corrected migration pass uses it.
- **Routes** (`Routes`, from `social_insecurity/routes.py`).
  - Login is a function over the Users table.
  - Registration, adding a friend and creating a post are methods that change the tables (and the upload folder).
  - The friend listing and the feed are functions.
- **Password migration** (`Migration`, from `migrate_passwords.py`).
  - The loop as written, which never issues its UPDATE.
  - The loop with the UPDATE issued, proved to rehash exactly the rows without the `$2b$` prefix.
  - Lemmas prove idempotence and that migrated users can log in again.

Opaque collaborators are parameters:

- bcrypt's `generate_password_hash` is `hash: string -> string`.
- `check_password_hash(stored, candidate)` is `check: (string, string) -> bool`.
- libmagic's `from_buffer` is `sniff: seq<bv8> -> string`.
- `secure_filename` is `secureFilename: string -> string`.
- `uuid4().hex` is the string `uuidHex`.
- `CURRENT_TIMESTAMP` is the integer `now`.
- The allow-sets come from the configuration. `social_insecurity/config.py:31` ships `ALLOWED_EXTENSIONS = {}`, an empty dict, whose membership test is always false as an empty set's would be; the model writes it as the empty set `Utils.ShippedExtensions`.

The model follows the code in these points:

- The migration returns no count and has no error isolation: an error on one row ends the whole run. An empty stored value is not skipped; bcrypt raises on it (see `Migration.MigratePasswords` under "Left out").
- No upload size ceiling is checked anywhere.
- Login has no plaintext fallback.
- The two login failures produce different messages ("Invalid username or password!" and "Sorry, wrong username or password !"). So the response does reveal whether the username exists; `Routes.LoginResult` keeps the two apart.

## Model

| member | source | states |
|---|---|---|
| `Text.LastIndexOf` | social_insecurity/utils.py:6 | the position `rsplit('.', 1)` splits at: absent exactly when the character does not occur, otherwise an occurrence with none after it |
| `Text.FirstLine` | social_insecurity/forms.py:61-64 | the part of a string a `.*[X].*` pattern can scan: a prefix holding no line feed, ended by the first line feed or by the end of the string |
| `Utils.Extension` | social_insecurity/utils.py:6 | the text after the last `.`: a dot-free suffix of the filename with a `.` right before it |
| `Utils.AllowedFileCharacterized` | social_insecurity/utils.py:4-6 | `allowed_file(f)` holds iff some `.` of `f` has no `.` after it and the text after it, lower-cased, is in the allow-set |
| `Utils.NoDotRejected` | social_insecurity/utils.py:6 | a filename without `.` is rejected whatever the allow-set |
| `Utils.JudgedByLastSuffix` | social_insecurity/utils.py:6 | `stem.ext` with dot-free `ext` is accepted iff `lower(ext)` is allowed, whatever dots `stem` holds |
| `Utils.DoubleExtensionJudgedByLast` | social_insecurity/utils.py:6 | `shell.png.exe` is accepted iff `exe` is allowed |
| `Utils.TrailingDotMeansEmptyExtension` | social_insecurity/utils.py:6 | a filename ending in `.` has the empty extension and passes iff `""` is allowed |
| `Utils.CaseInsensitive` | social_insecurity/utils.py:6 | lower-casing the filename first never changes the verdict |
| `Utils.UpperCaseExtensionAccepted` | social_insecurity/utils.py:6 | `photo.PNG` passes with the allow-set `{png}` |
| `Utils.ShippedConfigRejectsEveryFile` | social_insecurity/config.py:31 | with the shipped empty allow-set no filename passes |
| `Utils.Window` | social_insecurity/utils.py:11 | what `read(size)` returns from a position: the bytes from there, at most `size`, exactly `size` when that many remain |
| `Utils.FileStream.Seek` | social_insecurity/utils.py:10-12 | `seek(offset)` sets the position to `offset` |
| `Utils.FileStream.Read` | social_insecurity/utils.py:11 | `read(size)` returns the window at the position and moves the position past it |
| `Utils.SniffedPrefix` | social_insecurity/utils.py:11 | the sniffer sees a prefix of the upload of length `min(len, 1024)` |
| `Utils.AllowedMimeType` | social_insecurity/utils.py:8-13 | afterwards the stream position is 0 whatever the verdict, and the verdict is true iff the sniffed type of the first 1024 bytes is allowed |
| `Utils.VerdictIgnoresTail` | social_insecurity/utils.py:11 | bytes after the first 1024 never change the MIME verdict |
| `Forms.PasswordErrors` | social_insecurity/forms.py:59-64 | no errors iff the password is present, at least 8 long, and has an upper-case letter, a digit and a listed special character; each failing rule contributes its own message; a missing or empty password yields only "This field is required." |
| `Forms.RegisterFieldsRequired` | social_insecurity/forms.py:56-65 | a valid registration has first name, last name, username, password and confirmation all present and non-empty, and a password of length at least 8 |
| `Forms.StrongPasswordAccepted` | social_insecurity/forms.py:59-64 | `Passw0rd!` meets all four password rules |
| `Forms.RulesStopAtLineFeed` | social_insecurity/forms.py:61-64 | characters after a line feed do not satisfy the pattern rules: `abcdefg\nA1!` is rejected |
| `Forms.ConfirmationNotCompared` | social_insecurity/forms.py:59-65 | any non-empty confirmation validates exactly as repeating the password would |
| `Forms.MismatchedConfirmationValidates` | social_insecurity/forms.py:59-65 | a registration whose confirmation differs from its password validates |
| `Forms.LoginFieldsRequired` | social_insecurity/forms.py:45-46 | a valid login has a username and a password, each holding a character that is not whitespace |
| `Forms.BlankUsernameDiffersBetweenForms` | social_insecurity/forms.py:45-46 | a whitespace-only username satisfies the registration form's "required" but fails the login form's |
| `Tables.FindByUsername` | social_insecurity/routes.py:47-48 | the username lookup finds nothing iff no row has that username; otherwise it finds a row with that username, the only one when usernames are unique |
| `Tables.Database.InsertUser` | social_insecurity/routes.py:78-88 | appends exactly one user row with a fresh id and keeps ids and usernames unique |
| `Tables.Database.InsertFriendship` | social_insecurity/routes.py:222-223 | appends exactly the one `(u_id, f_id)` row and changes no other table |
| `Tables.Database.InsertPost` | social_insecurity/routes.py:132-136 | appends exactly one post row with a fresh id and changes no other table |
| `Tables.Database.UpdatePassword` | migrate_passwords.py:17 | replaces the password of the rows with that id and nothing else |
| `Routes.Login` | social_insecurity/routes.py:46-63 | an unknown username fails as such; a success names a user with that username whose stored value passes the hash check; a wrong-password failure names one whose value fails it |
| `Routes.StoredRowLogsIn` | social_insecurity/routes.py:46-59 | with unique usernames, a user whose stored value the hash check accepts for the password logs in as that user |
| `Routes.LoginIffCredentialsCheck` | social_insecurity/routes.py:50-63 | with unique usernames, login succeeds iff some user has that username and a stored value the hash check accepts |
| `Routes.Register` | social_insecurity/routes.py:65-90 | an empty password makes bcrypt raise before the lookup, and nothing is inserted; an existing username inserts nothing; otherwise exactly one row is appended, storing the hash of the password (never the plaintext) under a fresh id; other tables unchanged |
| `Routes.WeakPasswordIsRegistered` | social_insecurity/routes.py:65-88 | the route registers the one-character password `a`, which the form's policy rejects |
| `Routes.RegisterValidated` | social_insecurity/routes.py:65-90 | a form failing its validators inserts nothing; a valid form never reaches the empty-password raise; every registration it makes has a password meeting all four rules |
| `Routes.RegisteredUserCanLogIn` | social_insecurity/routes.py:46-88 | after a registration, logging in with the same username and password succeeds when the check accepts a hash of the password |
| `Routes.FriendIds` | social_insecurity/routes.py:212-213 | the caller's `f_id` list holds exactly the friends of the caller's Friends rows |
| `Routes.AddFriend` | social_insecurity/routes.py:196-224 | an empty session username redirects before any query; nothing is inserted for an unknown user, for oneself, or for an existing friend; otherwise exactly the one directed row `(caller, friend)` is appended, and no reverse row; Friends stays free of self rows and duplicates |
| `Routes.UsersWithId` | social_insecurity/routes.py:226-231 | the join side of the listing: exactly the users with the given id |
| `Routes.FriendList` | social_insecurity/routes.py:226-231 | the listing holds exactly the users other than the caller to whom the caller has a Friends row |
| `Routes.UploadFolder.Save` | social_insecurity/routes.py:125 | saving stores what remains of the stream from its position under the given name |
| `Routes.CreatePost` | social_insecurity/routes.py:116-137 | an upload is rejected iff it fails the extension or the MIME check, and then no post row and no file are created; an accepted image is stored, with all its bytes, as `uuid hex + "_" + secure_filename(name)`, and the post row names it; without an image the post has none; a MIME rejection leaves the stream rewound to 0, an extension rejection leaves it untouched, and a stored image leaves it at the end |
| `Routes.VisiblePosts` | social_insecurity/routes.py:139-147 | keeps each post as often as it is stored iff its author is the caller, has a Friends row to the caller, or is the target of one from the caller, and exists in Users; drops every other post |
| `Routes.InsertByTime` | social_insecurity/routes.py:145 | inserting into a newest-first sequence keeps it newest-first and adds exactly that post |
| `Routes.SortNewestFirst` | social_insecurity/routes.py:145 | `ORDER BY creation_time DESC`: a newest-first permutation of its input |
| `Routes.Feed` | social_insecurity/routes.py:139-147 | the feed is ordered newest first and holds exactly the visible posts, each as often as stored |
| `Migration.Migrated` | migrate_passwords.py:12-17 | the intended result: every row in place, rehashed from its current value iff it lacks `$2b$` |
| `Migration.LegacyPositions` | migrate_passwords.py:12-14 | the positions the loop acts on: strictly increasing, each within the table, and holding a position iff the row there lacks the `$2b$` prefix |
| `Migration.LegacyRows` | migrate_passwords.py:12-14 | the rows the loop selects: at most one per fetched row |
| `Migration.LegacyRowsInFetchOrder` | migrate_passwords.py:12-14 | the selected rows are one per legacy position, the k-th being the row at the k-th position, so they come in fetch order |
| `Migration.LegacyRowsMembers` | migrate_passwords.py:12-14 | a row is selected iff it is in the table and its value lacks the prefix |
| `Migration.NoLegacyRowsWhenAllHashed` | migrate_passwords.py:14 | a table whose every value has the prefix selects no row |
| `Migration.LegacyRowsNonEmpty` | migrate_passwords.py:14 | a table with a value lacking the prefix selects some row |
| `Migration.StrayStatements` | migrate_passwords.py:12-22 | the script sends one statement per selected row, in the same order, whose text is the new hash and whose parameter is the row id |
| `Migration.StrayStatementsPrefix` | migrate_passwords.py:12-22 | the statements sent for the first rows begin those sent for all rows |
| `Migration.StrayStatementsStep` | migrate_passwords.py:12-22 | one more fetched row adds its statement at the end iff its value lacks the prefix |
| `Migration.NoStatementsForHashedRows` | migrate_passwords.py:14 | rows whose values all have the prefix send no statement |
| `Migration.FirstLegacyRow` | migrate_passwords.py:12-22 | the first statement sent belongs to the first row lacking the prefix: its hash as text, its id as parameter |
| `Migration.MigratePasswordsAsWritten` | migrate_passwords.py:4-24 | changes no table; sends the stray statements in fetch order and prints the completion message after the loop, however many rows were selected; if the database raises on a stray statement, it stops at the first one without the message |
| `Migration.AsWrittenKeepsPlaintext` | migrate_passwords.py:17-22 | on a one-row plaintext table the run as written leaves the plaintext, while the intended pass replaces it |
| `Migration.MigratePasswords` | migrate_passwords.py:4-24 | with the UPDATE issued, the table becomes the intended result; ids, other tables and prefixed rows stay as they were |
| `Migration.MigratedAllHashed` | migrate_passwords.py:14-15 | after the pass every stored value has the prefix, if every hash has it |
| `Migration.MigrationChangesOnlyLegacyPasswords` | migrate_passwords.py:13-17 | the pass changes only the password column, leaves prefixed values byte for byte and sets the hash of the old value elsewhere |
| `Migration.MigrationIdempotent` | migrate_passwords.py:14-15 | a second pass changes nothing, if every hash has the prefix |
| `Migration.SecondPassSelectsNothing` | migrate_passwords.py:14 | a second pass selects no row, if every hash has the prefix |
| `Migration.MigratedUserCanLogIn` | migrate_passwords.py:14-15 | a migrated legacy user logs in with the old plaintext, if the check accepts the hash of a password |

## Findings

| source | as written | input that shows it | evidently intended | confidence | as-written member | corrected member |
|---|---|---|---|---|---|---|
| migrate_passwords.py:17-22 | the new hash is passed to `query` as the statement text; the `UPDATE` prepared in `q` is never sent, so no password changes | a Users table with one row (id 1, password `hunter2`) | `UPDATE Users SET password = <hash> WHERE id = 1` for every legacy row | high, not executed | `Migration.MigratePasswordsAsWritten`, `Migration.AsWrittenKeepsPlaintext` | `Migration.MigratePasswords` |
| social_insecurity/routes.py:65-88 | the registration branch checks only `is_submitted()` and never runs the form's validators, so the password rules at social_insecurity/forms.py:59-64 are never enforced | a fresh username with password `a` | registration refused unless the form validates | high, not executed | `Routes.Register`, `Routes.WeakPasswordIsRegistered` | `Routes.RegisterValidated` |

## Left out

- Flask routing, redirects, flashed messages, templates, sessions (`login_user`, `current_user`), the rate limiter and CSRF protection are framework plumbing.
- The caller's identity is the username the session carries.
- The comments, profile, uploads-serving and logout routes are not part of this model. Neither are the 413/429 error handlers and the `reset` command.
- bcrypt is opaque. The hash is a function of the password alone, so its random salt is not modelled. Constant-time comparison cannot be expressed. The `$2b$` output prefix and `check(hash(p), p)` are stated as preconditions of the lemmas that need them.
- libmagic is an opaque function of the sniffed prefix. `secure_filename` is opaque too.
- `uuid4()` and `CURRENT_TIMESTAMP` are parameters. So the model does not capture that the uuid makes stored names unique, nor the timestamps' second resolution.
- SQLite is replaced by in-memory tables. The schema and the `database` module are not part of this model. Ids come from a counter. Username comparison is exact, which assumes the default binary collation.
- The feed's join is a filter on "author exists", which assumes user ids are unique. The joined user columns and the per-post comment count are not modelled.
- `ALLOWED_MIME_TYPES` is never defined in the configuration, so reading it would raise `KeyError`. With the shipped empty `ALLOWED_EXTENSIONS` dict, `allowed_file` fails first and the MIME check is never reached. The model takes the MIME set as a parameter.
- `Migration.MigratePasswordsAsWritten`: whether the `database` module (not modelled) raises on a statement text that is not SQL is unknown. It is the parameter `strayStatementRaises`. The printed row dump is the list of fetched `(id, password)` pairs, not Python's text rendering of it.
- `Text.Lower`: lower-cases ASCII letters only. Python's `str.lower` also maps other Unicode letters.
- `Forms.HasDigit`: accepts ASCII digits only. Python's `\d` also matches other Unicode decimal digits.
- `Text.IsSpace`: ASCII whitespace only, including the separators U+001C to U+001F. `str.strip()` in `DataRequired` also strips other Unicode whitespace, such as U+0085 and U+00A0.
- `Routes.SortNewestFirst`: SQL leaves the order of posts with equal timestamps unspecified. The contract states only the newest-first order and the permutation, and the function picks one order for ties.
- `Migration.LegacyRows`: its own contract bounds only its length. Which rows it selects, and in what order, is stated by `Migration.LegacyRowsMembers` and `Migration.LegacyRowsInFetchOrder`.
- Requests and the migration run one at a time, with no concurrent writer. The duplicate checks and the `INSERT`s that follow them (social_insecurity/routes.py:70-88 and 211-223) are not atomic in the code, so two racing requests could both pass a check; the model does not capture that.
- The schema's constraints (`schema.sql`, not modelled: keys, uniqueness, foreign keys) are not part of this model. The model keeps ids and usernames unique by its own checks and counters.
- `Migration.MigratePasswords` and `Migration.MigratePasswordsAsWritten`: `hash` is total, so an empty legacy value is rehashed like any other. bcrypt's `generate_password_hash` raises `ValueError` on an empty password (migrate_passwords.py:15), so the script stops at such a row without the completion message. A NULL value already fails at `startswith` (migrate_passwords.py:14). The model does not capture either stop.
- `Routes.Login`: `check` is total. `check_password_hash` raises on a stored value that is not a bcrypt hash, so a legacy plaintext user's login (social_insecurity/routes.py:59) ends in an error. The model gives the wrong-password or success outcome that `check` decides instead.
- Filesystem work is not modelled beyond the upload folder's name-to-bytes map. That means the upload path, folder creation and serving files back.
