# A verified model of the to-do application's core

This project models the core of a small Flask to-do application in Dafny:
users who register and log in, their categories, and their tasks. It covers
the state-changing routes, the queries of the task listing and the index
page, the password storage format, and the form validators.

The database is an in-memory `Routes.Store` object. It holds the three tables
as sequences of rows and a clock that stands for `datetime.utcnow()`. As in SQLite, the
key of a new row is one more than the greatest key in its table
(`Routes.NextUserId`, `Routes.NextCategoryId`, `Routes.NextTaskId`), so a
deleted greatest key is given out again. Every request has a logged-in user, who is passed in as
the `actor` parameter. What a route answers (redirect, flash message, JSON
or page) is reduced to a `Response` value.

The store invariant `Valid` says:

- keys are unique;
- usernames and e-mails are unique;
- every row fits its column widths, except the e-mail, whose width the form does not enforce and SQLite does not check;
- task titles and category names are not blank (not only white space);
- no row was created or updated later than the clock;
- priorities are 1, 2 or 3;
- every `user_id` names a user;
- a task's category, when it has one, belongs to the task's own user;
- every stored password hash has the shape `set_password` writes: 32 hex digits, `$`, 64 hex digits.

Every route method preserves `Valid`.

Modules, in dependency order:

- `Wrappers`: the `Option` type.
- `Text`: Python's `str.strip`, ASCII lower-casing, substrings, `str.split` on one character.
- `Search`: SQL `LIKE`/`ILIKE` as SQLite evaluates it.
- `Seqs`: filtering, stable sorting, `LIMIT`, first match, greatest key.
- `Credentials`: the `salt$hash` format of `set_password`/`check_password`.
- `Models`: the column limits and defaults, the `User` class, the `Category` and `Task` rows.
- `Forms`: RegistrationForm, TaskForm and CategoryForm, including the e-mail regular expression as a hand-written test proved equal to the pattern.
- `Queries`: `task_list`, the index query, the category listing.
- `Routes`: the store and its routes.

Conventions:

- **Ordering.** The listing orders undated tasks before dated ones within a priority. This is SQLite's placement of NULL under `ASC`.
- **Case.** `ILIKE` is `lower(x) LIKE lower(y)` with ASCII-only `lower`, and `LIKE` has no escape character.
- **Time.** `datetime.utcnow()` is the store's clock. Each commit that writes a time advances the clock by one and writes the new value. Deleting a task writes no time and leaves the clock as it is.
- **Due dates.** `datetime.strptime` is a caller-supplied partial function of type `DateParser`.
- **Passwords.** PBKDF2-HMAC-SHA256 is an opaque deterministic function of type `Kdf`. The 16 random bytes of `secrets.token_hex` are a parameter, `entropy`.

## Model

| member | source | states |
|---|---|---|
| Text.IsSpace | app/routes.py:96 | definition: the characters Python's `str.isspace` accepts, which `str.strip()` removes (tab to carriage return, the separators 0x1C-0x1F, space, 0x85, no-break space and the Unicode space characters) |
| Text.TrimLeft | app/routes.py:126 | the result is a suffix of the input; everything dropped is white space; the result does not start with white space |
| Text.TrimRight | app/routes.py:126 | the result is a prefix of the input; everything dropped is white space; the result does not end with white space |
| Text.Strip | app/routes.py:96 | the stripped text is empty exactly when the input is all white space; otherwise it neither starts nor ends with white space |
| Text.StripDropsSurroundingSpace | app/routes.py:126 | the stripped text is a contiguous piece of the input, with only white space before and after it |
| Text.StripKeepsInnerText | app/routes.py:96 | a text that neither starts nor ends with white space is its own strip |
| Text.StripIdempotent | app/routes.py:126 | stripping a stripped text changes nothing |
| Text.Lower | app/routes.py:99-100 | position by position, only `A`-`Z` are lowered |
| Text.LowerAppend | app/routes.py:99-100 | lowering distributes over concatenation |
| Text.Count | app/models.py:28 | a count of zero means the character is absent |
| Text.CountAppend | app/models.py:25 | counts add up over concatenation |
| Text.Split | app/models.py:31 | one more part than separators; no part holds the separator; joining the parts gives back the text |
| Text.SplitTwo | app/models.py:31 | splitting `a$b`, where neither part holds `$`, gives exactly `[a, b]` |
| Text.SplitNone | app/models.py:31 | text without the separator splits into itself |
| Search.LikeMatch | app/routes.py:99-100 | definition: SQLite `LIKE` without an escape character: `%` matches any run of characters, `_` any one character, every other character itself |
| Search.ILike | app/routes.py:99-100 | definition: `ilike` as SQLite runs it, `lower(value) LIKE lower(pattern)` with ASCII-only `lower` |
| Search.SearchPattern | app/routes.py:97 | definition: the pattern `%term%`, with the term unescaped |
| Search.LiteralSearchIsSubstring | app/routes.py:97 | for a term without wildcards, `'%term%'` matches exactly the strings that contain the term |
| Search.ILikeAgreesWithoutWildcards | app/routes.py:97-101 | for a term without wildcards, the `ILIKE` search is exactly the case-insensitive substring test |
| Search.UnderscoreMatchesAnyChar | app/routes.py:97-101 | as written, searching `a_b` finds `axb`, which does not contain `a_b` |
| Search.PercentSearchMatchesEverything | app/routes.py:97-101 | as written, searching `%` matches every value |
| Seqs.Filter | app/routes.py:86 | keeps exactly the selected elements, each as often as it occurs |
| Seqs.SortBy | app/routes.py:103 | the sorted rows are a permutation of the input |
| Seqs.SortBySorted | app/routes.py:103 | under a total preorder the result is sorted |
| Seqs.Take | app/routes.py:18 | `LIMIT n`: the first n rows of the input, or all of them when there are fewer; no row more often than in the input |
| Seqs.TakeSortedDominates | app/routes.py:18 | a row of a sorted sequence that `LIMIT n` leaves out means n rows were kept, each ordered before it |
| Seqs.MaxKey | app/routes.py:133-134 | the greatest key of the rows, 0 for none, reached by some row |
| Seqs.Find | app/routes.py:143 | the first position that matches, or none when no position matches |
| Credentials.Hex | app/models.py:24 | two lower-case hex digits per byte |
| Credentials.HexInjective | app/models.py:24 | different bytes give different hex text |
| Credentials.NewStoredValue | app/models.py:17-25 | the stored value is 32 hex digits, `$`, 64 hex digits: 97 characters, within the 128 of the column |
| Credentials.HexStoredParts | app/models.py:28-31 | a value of that shape holds exactly one `$`, splits into salt and hash at it, and its hash part is ASCII |
| Credentials.NewStoredValueInjective | app/models.py:17-25 | two calls that draw different salt bytes store different values, whatever the passwords |
| Credentials.NewStoredValueSplits | app/models.py:17-25 | the stored value splits into the 32-character salt and the hex of KDF(password, salt) |
| Credentials.CheckStored | app/models.py:27-40 | check_password as written: false without a value or without `$`; a ValueError exactly when there are two or more `$`; a TypeError from compare_digest exactly when there is one `$` and the hash part is not ASCII; true only with exactly one `$` |
| Credentials.CheckAfterSet | app/models.py:17-40 | after set_password(p), check(q) is true exactly when KDF(q, salt) = KDF(p, salt); so p passes, and every q that the KDF separates from p fails |
| Credentials.TamperedHashRejected | app/models.py:33-40 | a stored value whose hash part was replaced by other separator-free ASCII text rejects the right password |
| Credentials.TamperedSaltRejected | app/models.py:31-40 | a stored value whose salt was replaced by another separator-free salt, hash part kept, rejects the right password whenever the KDF gives that password different keys under the two salts |
| Credentials.NonAsciiHashRaises | app/models.py:40 | as written, a stored value with one `$` and a non-ASCII hash part makes compare_digest raise TypeError |
| Credentials.AccentedHashRaises | app/models.py:40 | as written, the stored value `s$é` makes the check raise TypeError |
| Credentials.TwoSeparatorsRaise | app/models.py:31 | as written, `a$b$c` makes the check raise |
| Credentials.CheckStoredFailClosed | app/models.py:27-40 | true exactly when check_password answers true, so only with exactly one `$`; equal to check_password's answer wherever that does not raise |
| Credentials.FailClosedAfterSet | app/models.py:17-40 | the fail-closed check keeps the round trip of set_password |
| Models.User.constructor | app/models.py:7-12 | a new user row holds the given id, username, e-mail and creation time, and no hash |
| Models.User.SetPassword | app/models.py:17-25 | stores NewStoredValue, within the column; afterwards CheckPassword(q) answers KDF(q, salt) = KDF(p, salt) for every q |
| Models.User.CheckPassword | app/models.py:27-40 | false without a hash; ValueError exactly when the hash has two or more `$`; TypeError exactly when it has one `$` and a non-ASCII hash part; true only with exactly one `$` |
| Forms.Required | app/forms.py:14-17 | definition: `DataRequired` on a text field: the value is present and not only white space |
| Forms.EmailPattern | app/forms.py:27 | definition: `re.match` of `^[a-zA-Z0-9._%+-]+@[a-zA-Z0-9.-]+\.[a-zA-Z]{2,}$`, stated over splits of the string, with `$` also matching before one final newline |
| Forms.EmailFormatOk | app/forms.py:27 | definition: the executable test of the same pattern, by locating the first `@` and the last `.` |
| Forms.IndexOf | app/forms.py:27 | the first position of the character (the first match of Seqs.Find), or none when it does not occur |
| Forms.LastIndexOf | app/forms.py:27 | the last `.`, or none when there is none |
| Forms.BodyOkIsPattern | app/forms.py:27 | the hand-written test of one address accepts exactly the strings that split as local@domain.letters |
| Forms.EmailFormatIsPattern | app/forms.py:27 | the format test accepts exactly what `re.match` with the pattern accepts, including one trailing newline under `$` |
| Forms.NoAtRejected | app/forms.py:27 | nothing without an `@` is accepted |
| Forms.NotAnEmailRejected | app/forms.py:27 | `not-an-email` is rejected |
| Forms.ShortEmailAccepted | app/forms.py:27 | `a@b.co` is accepted |
| Forms.TrailingNewlineAccepted | app/forms.py:27 | `a@b.co` followed by a newline is accepted |
| Forms.UsernameErrors | app/forms.py:14-23 | definition: DataRequired stops the chain; otherwise Length(min=3, max=64), then the uniqueness check of validate_username |
| Forms.ValidateEmail | app/forms.py:25-32 | definition: `validate_email`: the format error when the pattern does not match; otherwise the duplicate error when a stored user has the address |
| Forms.EmailErrors | app/forms.py:25-32 | definition: DataRequired stops the chain; otherwise validate_email: the format error, and only for a well-formed address the uniqueness check |
| Forms.PasswordErrors | app/forms.py:16 | definition: DataRequired, then Length(min=6) |
| Forms.ConfirmErrors | app/forms.py:17 | definition: DataRequired, then EqualTo('password') |
| Forms.RegistrationErrors | app/forms.py:13-32 | definition: the errors of the four fields in form order; the form validates when there are none |
| Forms.RegistrationAccepted | app/forms.py:13-32 | the registration passes exactly when all of these hold: the username is given, 3 to 64 long and unused; the e-mail is given, well-formed and unused; the password is given and at least 6 long; the confirmation is given and equal to it |
| Forms.DuplicateUsernameRejected | app/forms.py:20-23 | a taken username is always reported |
| Forms.EmailErrorPrecedence | app/forms.py:25-32 | a well-formed address in use is reported as taken; a malformed one as malformed and never as taken |
| Forms.EmailErrorsComeFromEmailField | app/forms.py:13-32 | only the e-mail field reports format or duplicate errors |
| Forms.LongEmailPassesAsWritten | app/forms.py:15 | as written, a well-formed 122-character address passes registration |
| Forms.BoundedRegistrationAccepted | app/forms.py:15 | the bounded form accepts what the form as written accepts, less the addresses longer than 120 |
| Forms.TaskFormErrors | app/forms.py:34-40 | definition: the title's DataRequired and Length(max=200), the category choice among 0 and the user's own ids, and the priority among 1, 2 and 3 |
| Forms.TaskFormAccepted | app/forms.py:34-40 | the task form passes exactly when all of these hold: the title is given and at most 200 long; the category is 0 or the user's own; the priority is 1, 2 or 3. The stripped title is then non-empty and fits |
| Forms.CategoryFormErrors | app/forms.py:42-44 | definition: the name's DataRequired and Length(max=100), and the colour's Length(max=7) |
| Forms.CategoryFormAccepted | app/forms.py:42-44 | the category form passes exactly when the name is given and at most 100 long and the colour at most 7; the stripped name is then non-empty and fits |
| Forms.FormDefaultsAccepted | app/forms.py:38-44 | the default priority 2 and the default colour `#007bff` pass their validators |
| Queries.MatchesSearch | app/routes.py:98-101 | definition: `title ILIKE '%term%' OR description ILIKE '%term%'`, where a NULL description matches nothing |
| Queries.Selected | app/routes.py:86-101 | definition: the filter chain of task_list: the acting user's rows, then the category filter for a non-zero id, the status filter for `completed` or `active`, and the search filter for a non-blank stripped term |
| Queries.ListingOrder | app/routes.py:103 | definition: `ORDER BY priority ASC, due_date ASC`, with an undated task before every dated one, as SQLite places NULL |
| Queries.TaskList | app/routes.py:86-103 | the listing holds exactly the acting user's tasks that pass the category and status filters and whose title or description the `ILIKE '%term%'` pattern matches, each as often as stored, sorted by priority and then due date |
| Queries.IntendedTaskList | app/routes.py:86-103 | the same listing with the search as a literal, case-insensitive substring test: the same rows, multiplicities and order |
| Queries.LiteralSearchSelects | app/routes.py:96-101 | for a term without `%` or `_`, the `ILIKE` search of a task equals the literal substring search |
| Queries.ListingAgreesWithoutWildcards | app/routes.py:86-103 | when the stripped search term holds no wildcard, the listing as written is exactly the intended listing |
| Queries.UnderscoreSearchListsNonMatch | app/routes.py:96-103 | as written, searching `a_b` lists a task titled `axb`, which the intended listing leaves out |
| Queries.SameSelectionSameListing | app/routes.py:86-103 | two queries that select the same rows give the same listing |
| Queries.CategoryZeroIgnored | app/routes.py:88-89 | `category_id=0` filters nothing |
| Queries.OtherStatusIgnored | app/routes.py:91-94 | a status other than `completed` or `active` filters nothing |
| Queries.StatusSelectsCompletion | app/routes.py:91-94 | `completed` keeps only done tasks, `active` only open ones |
| Queries.BlankSearchIgnored | app/routes.py:96 | a search of only white space filters nothing |
| Queries.NoDescriptionSearchesTitle | app/routes.py:98-101 | under a search, a task without a description is listed exactly when it is a stored task of the acting user, passes the category and status filters, and its title matches the `ILIKE` pattern (NULL never matches) |
| Queries.ListingIsOrdered | app/routes.py:103 | any two tasks in the listing are in priority order, and in due-date order within one priority, undated first |
| Queries.NewerFirst | app/routes.py:18 | definition: `ORDER BY created_at DESC` |
| Queries.LatestTasks | app/routes.py:18 | at most five of the acting user's tasks, newest first, none more often than stored |
| Queries.LatestAreNewest | app/routes.py:18 | a task of the user that the index leaves out is no newer than any task shown, and then five are shown |
| Queries.OwnedCategories | app/routes.py:209 | exactly the acting user's categories, each as often as stored |
| Routes.DueFromText | app/routes.py:117-123 | definition: as in create_task and, at app/routes.py:154-160, edit_task: an empty field gives no due date; otherwise the parser's date, or the bad-date answer when it cannot parse |
| Routes.OwnCategoryIds | app/routes.py:113-114 | definition: the category choices the task forms offer besides 0: the ids of the acting user's own categories |
| Routes.StoredDescription | app/routes.py:127 | none exactly for an empty field, otherwise the stripped text |
| Routes.ChosenCategory | app/routes.py:131 | choice 0 stores no category; any other choice stores itself |
| Routes.NewTaskRow | app/routes.py:125-132 | the new row: the given id and owner, stripped title, stored description, completed false, the chosen priority, category and due date, both stamps now |
| Routes.EditedRow | app/routes.py:162-167 | five columns from the form and a new updated_at; id, owner, completion and creation time kept |
| Routes.NextUserId | app/routes.py:53-54 | the key SQLite gives a new user: above every stored key, 1 for an empty table, otherwise one more than a stored key |
| Routes.NextCategoryId | app/routes.py:222-223 | the same for a new category |
| Routes.NextTaskId | app/routes.py:133-134 | the same for a new task |
| Routes.DeletedNewestKeyReused | app/routes.py:201-202 | after the task with the greatest key is deleted, the next task gets a key no greater than it, and that very key when the key below it is taken or it was 1; no remaining row has it |
| Routes.DefaultCategoriesFit | app/routes.py:56-60 | each default name is not blank and within 100 characters, each colour within 7 |
| Routes.DefaultCategoryRows | app/routes.py:56-64 | three rows owned by the new user, numbered on from the given first key, with the fixed names and colours in order |
| Routes.FindTask | app/routes.py:143 | the row with the task id, or none when no row has it |
| Routes.FindCategory | app/routes.py:232 | the row with the category id, or none when no row has it |
| Routes.ClearedRows | app/routes.py:238 | the bulk update keeps the number and order of rows; afterwards no row of the owner names the category; rows of other users or other categories are unchanged; a changed row differs only in a cleared category and a new updated_at |
| Routes.AcceptedTaskFormFits | app/routes.py:113-116 | an accepted task form yields a title that fits, a valid priority, and no category or one of the acting user's own |
| Routes.DeleteCategoryKeepsTables | app/routes.py:234-240 | removing an owner's category after the bulk update keeps both tables consistent, and no task refers to it any more |
| Routes.SeededCategoriesOwned | app/routes.py:56-66 | after registration the new user's categories are exactly the three seeded rows |
| Routes.AcceptedRegistrationFits | app/routes.py:49-51 | an accepted registration names an unused username and an unused e-mail, and the username fits its column |
| Routes.Store.constructor | app/models.py:7-67 | an empty, consistent database |
| Routes.Store.AppendTask | app/routes.py:133-134 | commits one consistent task row under one more than the greatest key; users and categories unchanged |
| Routes.Store.ReplaceTask | app/routes.py:169 | commits one row overwritten in place under the same key; everything else unchanged |
| Routes.Store.RemoveTask | app/routes.py:201-202 | commits the removal of one row; no row with its key remains |
| Routes.Store.AppendCategory | app/routes.py:222-223 | commits one consistent category row under one more than the greatest key; users and tasks unchanged |
| Routes.Store.ToggleTask | app/routes.py:178-190 | 404 and 403 change nothing; for the owner, completed flips, updated_at moves past every earlier stamp, and nothing else changes |
| Routes.Store.DeleteTask | app/routes.py:192-204 | 404 and 403 change nothing; for the owner, exactly that task is removed, the rest stay in order, and no task with that id is left |
| Routes.Store.CreateTask | app/routes.py:109-138 | a rejected form or an unparsable due date changes nothing; otherwise exactly NewTaskRow is appended under NextTaskId of the old table |
| Routes.Store.EditTask | app/routes.py:140-176 | checks 404, then 403, then the form, then the due date, and each failure changes nothing; otherwise exactly the owner's row becomes EditedRow, whose updated_at moves past the old one |
| Routes.Store.CreateCategory | app/routes.py:212-227 | a rejected form changes nothing; otherwise one category of the acting user is appended under NextCategoryId of the old table, with the stripped name and the colour as given |
| Routes.Store.DeleteCategory | app/routes.py:229-243 | 404 and 403 change nothing; for the owner, the owner's tasks lose the category, the category row goes, and nothing else changes |
| Routes.Store.ClearCategory | app/routes.py:238 | the loop of the bulk update computes ClearedRows |
| Routes.Store.NewUser | app/routes.py:51-52 | a fresh user row with the given fields, an e-mail of any length, and the hash set_password writes |
| Routes.Store.AppendUser | app/routes.py:53-54 | commits one user row under NextUserId; categories and tasks unchanged |
| Routes.Store.AddUser | app/routes.py:51-54 | the first commit: exactly one new user under NextUserId, with the given username, e-mail and password hash; categories and tasks unchanged |
| Routes.Store.CommitCategories | app/routes.py:62-66 | one commit inserts the rows the session holds, in order, after the stored categories; users and tasks unchanged |
| Routes.Store.SeedDefaultCategories | app/routes.py:56-66 | the loop adds the three default rows to the session and one commit stores exactly DefaultCategoryRows for the user |
| Routes.Store.Authenticate | app/routes.py:30-32 | login looks up the first user with that username (`first()`) and yields its id exactly when its hash checks out; with no such username it yields none |
| Routes.Store.LoginOfStoredUser | app/routes.py:30-32 | in a consistent database, logging in as a stored user yields that user's id exactly when its hash checks out |
| Routes.Store.LoginAfterRegister | app/routes.py:30-32 | a user just registered logs in with q exactly when KDF(q, salt) = KDF(p, salt) |
| Routes.Store.CommitRegistration | app/routes.py:51-66 | one new user under NextUserId with the form's username and e-mail, the password's hash and a creation time of the first commit, then exactly the three default categories owned by that user, two commits; login with q then succeeds exactly when KDF(q, salt) = KDF(p, salt) |
| Routes.Store.Register | app/routes.py:44-70 | validates with the form as written: a rejected form changes nothing; an accepted one, whatever the e-mail's length, adds one user and the three default categories as above |
| Routes.Store.RegisterBounded | app/routes.py:44-70 | the same route validating with the bounded form: a rejected form changes nothing; an accepted one gives the same new user, categories and login as Register, and every e-mail it stores fits the 120-character column |
| Routes.Store.StoredHashesNeverRaise | app/models.py:28-40 | in a consistent database, check_password as written answers on every stored user: neither ValueError nor TypeError |
| Routes.Store.StoredCheckAgrees | app/routes.py:32 | in a consistent database, check_password as written answers for every stored user exactly what login's fail-closed check answers |

## Left out

- Flask routing, templates, `flash`, `redirect` and `jsonify`: each answer is a `Response` value.
- flask_login sessions, `login_user`, `logout_user`, `load_user`, CSRF and the browser script: the logged-in user is the `actor` parameter.
- `reset_database.py` and `run.py`: file-system work and process start-up.
- The route-level `is_authenticated` redirects of `login` and `register`.
- `remember_me` and the `next` redirect of `login`.
- The `GET` pages that only render a form.
- `LoginForm`'s own DataRequired checks.
- PBKDF2-HMAC-SHA256 is an opaque deterministic function, and `secrets.token_hex(16)` is the `entropy` parameter.
- `secrets.compare_digest` is equality of two ASCII strings and a TypeError otherwise. Its constant-time behaviour cannot be stated here.
- Credentials.TamperedHashRejected: promises rejection only for an ASCII forged hash part, because for any other the code raises TypeError instead (Credentials.NonAsciiHashRaises).
- The `String(120)` width of `email` is not an invariant of the store: neither the form nor SQLite enforces it (see Findings).
- `datetime.utcnow()` is a tick of the store's clock, and a due date is a tick.
- `datetime.strptime` is the caller-supplied `DateParser`. Its `%Y-%m-%dT%H:%M` format is not modelled.
- WTForms binding and coercion: `TaskInput`, `CategoryInput` and `RegistrationInput` hold the field data after binding.
  - A `SelectField` value that fails `coerce=int` is not modelled.
  - The choice value is taken as an integer.
  - An absent priority or colour arrives as the form default that the caller supplies (see `Forms.FormDefaultsAccepted`).
- `Routes.ChosenCategory` requires a non-negative choice. A negative one is never a choice, because keys start at 1, and the form rejects it before the route reads it.
- The ORM cascades of `User` (app/models.py:14-15) are not modelled. No route deletes a user.
- Commits are not interrupted. A crash between the two commits of registration, which would leave a user without categories, is not modelled.
- `lower()` beyond ASCII and collations other than SQLite's default `LIKE` are not modelled.
- The order of tasks that tie on priority and due date is not fixed by SQL.
  - Queries.TaskList: sorts ties stably, but its contract promises only the ordering that SQL guarantees.
  - Queries.LatestTasks: the same holds for tasks with equal `created_at`.
- The `ClearCategory` loop and the other methods work on sequence values of rows. The identity of ORM row objects shared between queries is not modelled.

## Findings

| source | as written | input that shows it | evidently intended | confidence | as-written member | corrected member |
|---|---|---|---|---|---|---|
| app/routes.py:97 | the stripped search term goes into the `ILIKE` pattern unescaped, so `%` and `_` in it act as wildcards | searching `a_b` lists a task titled `axb`; searching `%` lists every task | the term is found as a literal, case-insensitive substring of the title or description | not executed | Queries.UnderscoreSearchListsNonMatch | Queries.ListingAgreesWithoutWildcards |
| app/models.py:31 | `salt, stored_hash = split('$')` raises ValueError when the stored value has two or more `$` | a stored hash `a$b$c` makes login raise instead of refusing | a malformed stored value fails the check (false) | not executed | Credentials.TwoSeparatorsRaise | Credentials.FailClosedAfterSet |
| app/forms.py:15 | the e-mail field has no `Length(max=120)`, while its column is `String(120)` | `a@` + 116 × `b` + `.com` (122 characters) passes the form | addresses longer than the column are rejected by the form | not executed | Forms.LongEmailPassesAsWritten | Routes.Store.RegisterBounded |

For each finding:

1. **Search wildcards.** `Queries.TaskList` is the listing as written, with `ILIKE`; `Queries.UnderscoreSearchListsNonMatch` exhibits the extra row. `Queries.IntendedTaskList` is the listing with the literal substring search, and `Queries.ListingAgreesWithoutWildcards` proves the two equal for every term without `%` or `_`.
2. **check_password raises.** Besides the ValueError, compare_digest raises TypeError on a non-ASCII hash part (`Credentials.AccentedHashRaises`). Login (`Routes.Store.Authenticate`) uses `Credentials.CheckStoredFailClosed`, which answers false in both cases. `Routes.Store.StoredHashesNeverRaise` shows that no hash written through the routes reaches either failing case, so on such a database the two checks agree (`Routes.Store.StoredCheckAgrees`).
3. **E-mail length.** `Routes.Store.Register` validates with the form as written and may store a longer address. `Routes.Store.RegisterBounded` validates with `Forms.BoundedRegistrationErrors` and keeps every stored address within the column.
