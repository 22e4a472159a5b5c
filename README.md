# Expense tracker: accounts, email check and ledger

This project models the logic of a small expense-tracking web form (`app.py`),
leaving out its user interface. The form has three parts:

- **The email syntax check `is_valid_email`.** It is an ad-hoc rule set, not
  RFC 5322. It uses membership tests, `startswith`/`endswith`, a two-name
  unpacking of `split("@")` whose `ValueError` is caught, and `rsplit(".", 1)`.
- **The account registry.** The `users` table has no UNIQUE constraint.
  `register` checks, in this order: the email format, whether the name is
  taken, whether the email is registered. The first failing check decides the
  outcome. Only a success inserts a row. `login` is an exact-match lookup on
  email and password.
- **The expense ledger.** `add_expense` appends a row. `get_expenses` filters
  the rows by owner. It also filters by a date range, but only when both
  bounds are truthy. Dates compare under SQLite's BINARY collation on TEXT.

Modules:

- `Wrappers`: `Option`.
- `PyStrings`: Python's `split`, `rsplit(sep, 1)`, `join`, `startswith` and
  `endswith` for one separator character.
- `EmailValidation`: the check itself, `IsValidEmail`. It follows
  `is_valid_email` branch by branch. Beside it is a closed form, `WellFormed`: the address reads
  `local @ name . ext`. The two are proved equivalent.
- `Collation`: the BINARY text order. Dafny's `<=` on sequences is the prefix
  relation, so this order is defined separately. It is proved a total order.
- `Accounts`: the `users` table as a sequence of rows, with the lookups
  `is_name_taken`, `is_email_registered` and `login` as functions of the table.
  `Register` is the registration rule as a function, and lemmas state the
  account invariants.
- `Ledger`: the `expenses` table and the report query `Select`.
- `App`: class `Database`, which holds both tables.
  - `Register` and `AddExpense` change the tables (`modifies this`).
  - `GetExpenses` builds the query step by step and only reads.
  - Two client methods replay the registration, login and report cases.

Modelling choices:

- A `SELECT ...` followed by `fetchone()` returns the id of the first matching
  row in insertion order. SQLite promises no order without `ORDER BY`. Under
  unique emails, which `register` maintains, the login lemmas hold for every
  order.
- A new user's id is one more than the largest id in the table, or 1 when the
  table is empty. This is SQLite's rule for an `INTEGER PRIMARY KEY` that the
  insert does not set, negative ids included (`NextIdAfterNegativeIds`).
  Tables built by `register` alone hold only ids from 1 up
  (`RegisterKeepsIdsPositive`).
- `amount` is a `real` that is stored and returned. Nothing computes on it.
- The optional date bounds are `Option<string>`. A bound is truthy when it is
  `Some` and non-empty, as in Python, where `None` and `""` are false.

Points where the code's behaviour is easy to misread, and what the model
does with them:

- `is_valid_email` splits at every `@`, not only at the first, and unpacks
  the pieces into exactly two names. Every address without exactly one `@`
  is therefore rejected (`RejectsUnlessOneAt`).
- The test `not local_part` (app.py:26) never decides anything. An empty
  local part means the address starts with `@`, and app.py:18 has already
  rejected that (`EmptyLocalPartStartsWithAt`).
- `add_expense` accepts any amount, negative ones included. Only the input
  widget's `min_value=0.0` (app.py:154) keeps amounts non-negative, so the
  model accepts any amount.
- `get_expenses` has no `ORDER BY`, so SQLite promises no row order. The
  model keeps insertion order, but only `SelectAppend`, `SelectConcat` and
  `App.Database.GetExpenses` (whose rows equal `Select`) speak of order. `Select` also states how often each row occurs, and that
  statement does not depend on order.

## Model

| member | source | states |
|---|---|---|
| PyStrings.Split | app.py:22 | `split("@")` gives one more piece than there are `@`. No piece holds an `@`, and joining the pieces with `@` gives the address back |
| PyStrings.SplitJoin | app.py:22 | Round trip: pieces without the separator come back unchanged from join followed by split |
| PyStrings.SplitAfterPiece | app.py:22 | A piece without the separator, followed by the separator, becomes the first name of the split |
| PyStrings.SplitWithoutSeparator | app.py:22 | A string without the separator splits into itself alone |
| PyStrings.RFind | app.py:25 | The position found holds the separator and no separator follows it; there is none exactly when the string has no separator |
| PyStrings.RSplitOnce | app.py:25 | `rsplit(".", 1)` gives two pieces when a `.` is present and one otherwise. The last piece holds no `.` and the pieces join back to the domain |
| PyStrings.RSplitAtLast | app.py:25 | `rsplit` cuts at the last `.`: the one after which no `.` follows |
| EmailValidation.IsValidEmail | app.py:15-30 | The check branch by branch: `@` and `.` present, no `@` or `.` at either end, a two-name unpacking of `split("@")` (any other count is the caught `ValueError`, a rejection), a `.` in the domain, `rsplit(".", 1)`, then a non-empty local part and domain name and an extension of 2 to 6 characters |
| EmailValidation.EmptyLocalPartStartsWithAt | app.py:18-26 | When the unpacking yields an empty local part, the address starts with `@`, so the test `not local_part` never decides |
| EmailValidation.ValidIsShaped | app.py:15-30 | An accepted address has exactly one `@`, and the local part, domain name and extension the check computed have the closed-form shape |
| EmailValidation.Verdict | app.py:18-28 | Once the address is cut at its `@` and at the last `.`, acceptance is equivalent to: non-empty local part not starting with `.`, non-empty domain name, extension of 2 to 6 |
| EmailValidation.ShapedIsValid | app.py:15-30 | Every address of the closed form is accepted |
| EmailValidation.ValidIffWellFormed | app.py:15-30 | The check accepts exactly `local @ name . ext`. Here no part holds `@`, `local` is non-empty and does not start with `.`, `name` is non-empty, and `ext` has no `.` and 2 to 6 characters |
| EmailValidation.RejectsUnlessOneAt | app.py:16-30 | No `@` fails the membership test; two or more fail the two-name unpacking, whose `ValueError` is caught |
| EmailValidation.AcceptsShortAddress | app.py:15-28 | `a@b.co` is accepted |
| EmailValidation.AcceptsDottedParts | app.py:15-28 | `a.b@c.d.io` is accepted: `.` may appear in the local part and the domain name |
| EmailValidation.AcceptsTrailingDotInLocalPart | app.py:15-28 | `x.@y.museum` is accepted: a `.` may end the local part; six characters is the longest extension |
| EmailValidation.RejectsOneCharacterExtension | app.py:26-27 | `a@b.c` is rejected |
| EmailValidation.RejectsSevenCharacterExtension | app.py:26-27 | `a@b.abcdefg` is rejected |
| EmailValidation.RejectsEmptyDomainName | app.py:26-27 | `a@.com` is rejected |
| EmailValidation.RejectsDoubleAt | app.py:22-30 | `a@@b.com` is rejected: the unpacking into two names fails |
| EmailValidation.RejectsMissingAt | app.py:16-17 | `noatsign.com` is rejected |
| EmailValidation.RejectsDomainWithoutDot | app.py:23-24 | `a.b@com` is rejected: the domain has no `.` |
| EmailValidation.RejectsBoundaryCharacters | app.py:16-19 | `.a@b.com`, `@b.com`, `a@` and `a@b.` are rejected |
| Collation.TextLe | app.py:75 | `a <= b` under BINARY collation: character by character, the first difference decides, and a prefix sorts first |
| Collation.PrefixIsLe | app.py:75 | A prefix sorts no later than the string it starts |
| Collation.Reflexive | app.py:75 | Every date lies between itself and itself |
| Collation.Antisymmetric | app.py:75 | Two strings each at most the other are equal |
| Collation.Transitive | app.py:75 | The BINARY order is transitive |
| Collation.Total | app.py:75 | Any two strings are comparable |
| Collation.IsoDateExamples | app.py:75 | `2024-01-01` sorts before `2024-01-31`, and `2024-02-01` sorts after `2024-01-01` |
| Accounts.IsEmailRegistered | app.py:33-35 | `fetchone()` on `WHERE email=?` is not `None`: some stored user has exactly this email |
| Accounts.IsNameTaken | app.py:37-39 | `fetchone()` on `WHERE name=?` is not `None`: some stored user has exactly this name |
| Accounts.FirstMatch | app.py:33-39 | The first row a `WHERE` clause selects, or nothing exactly when no row matches |
| Accounts.SelectId | app.py:34-35 | `fetchone()` returns an id exactly when some row matches, and the id is that of a matching row |
| Accounts.TakenIffStored | app.py:33-39 | `is_name_taken` / `is_email_registered` answer yes exactly when a row with that exact name / email is stored |
| Accounts.Login | app.py:57-59 | `login` returns an id exactly when a stored user has both that email and that password, and the id belongs to such a user |
| Accounts.NextId | app.py:52 | The id the insert receives: 1 in an empty table, otherwise one more than the largest stored id, so it exceeds every stored id. It is at least 1 when no stored id is negative |
| Accounts.NextIdAfterNegativeIds | app.py:52 | A table whose ids are -5 and -9 gives the next row id -4 |
| Accounts.RegisterKeepsIdsPositive | app.py:45-54 | If every stored id is at least 1, so is every id after `register` |
| Accounts.Message | app.py:47-54 | The four texts `register` returns, one per outcome |
| Accounts.Register | app.py:45-54 | The registration rule: an invalid email, then a taken name, then a registered email each return their outcome with the table unchanged; otherwise the row is appended with the next id and the outcome is a success |
| Accounts.MessageIsSuccessOnlyForSuccess | app.py:45-54 | Of the four texts `register` returns, only that of a success equals "Success" |
| Accounts.RegisterKeepsAccountsUnique | app.py:45-54 | If no two users share a name, an email or an id before `register`, the same holds afterwards |
| Accounts.RegisterAppendsOneFreshUser | app.py:52-54 | On success, exactly one user with the given name, email and password is appended under an id no stored user had, and the earlier rows are kept. On failure the table is unchanged |
| Accounts.LoginAfterRegister | app.py:52-59 | After a successful `register(n, e, p)`, `login(e, p)` returns the new user's id |
| Accounts.LoginFindsOwner | app.py:57-59 | With unique emails, a stored user's email logs in as that user exactly with that user's password; any other password returns nothing |
| Accounts.SecondRegistrationRefused | app.py:45-51 | After a success, the same name with any well-formed email gives the name-taken outcome. The same email under an untaken name gives the email-registered outcome |
| Ledger.Truthy | app.py:74 | Python truthiness of a bound: `None` and `""` are false, any other string is true |
| Ledger.Selects | app.py:72-76 | The `WHERE` clause: the owner matches, and when a range is present `low <= date <= high` in BINARY order, both ends included |
| Ledger.Select | app.py:72-78 | A row is returned exactly when some stored expense selected by the query projects to it. It occurs in the result exactly as many times as selected stored expenses project to it, whatever the order |
| Ledger.DuplicateRowsKept | app.py:77-78 | Two identical selected expenses give two report rows, not one |
| Ledger.SelectAppend | app.py:67-78 | Appending an expense adds its projection at the end of the result if the query selects it, and changes nothing otherwise |
| Ledger.SelectConcat | app.py:72-78 | The query over two concatenated parts of the table is the concatenation of the queries over each part |
| Ledger.OtherUsersInvisible | app.py:67-78 | Another user's expense never changes a user's report |
| Ledger.SelectNoOwnedRows | app.py:72-78 | A user who owns no row gets no rows, whatever the range |
| Ledger.RangeNarrows | app.py:74-76 | The date range returns no more rows than the owner filter alone, and only rows the owner filter returns |
| Ledger.FirstExpenseExample | app.py:67-78 | After a user's first expense on 2024-01-01, the January range returns exactly that row and the February range returns none |
| App.Database.constructor | app.py:10-12 | A fresh database has empty `users` and `expenses` tables |
| App.Database.Register | app.py:45-54 | Invalid email, then a taken name, then a registered email decide the outcome, and on any of them the users table is unchanged. On success one user is appended with the next id. Unique names and emails are preserved; expenses are untouched |
| App.Database.AddExpense | app.py:67-69 | Appends exactly one row and changes nothing else |
| App.Database.GetExpenses | app.py:71-78 | Returns `Select` of the query it builds: exactly the projections of the owner's rows, each as often as it is stored. When both bounds are truthy, only rows dated between them in BINARY order are kept; otherwise no date filter applies |

## Left out

- The Streamlit interface and its session state (`logged_in`, `user_id`, menus, reruns) are presentation and event handling, not core logic.
- `generate_pdf` calls the FPDF library, whose code is not part of this model. It also formats a float into the line text.
- Writing and reading `report.pdf` and the download button are file I/O.
- Concurrent sessions are not modelled. The connection is shared across threads (`check_same_thread=False`, app.py:8), and `users` has no UNIQUE constraint. So two sessions registering at once could both pass the lookups of app.py:46-51 before either inserts. The model runs each `register` as one uninterrupted step, and the uniqueness invariant (`RegisterKeepsAccountsUnique`, `App.Database.Register`) holds only under sequential calls.
- The SQLite connection, the SQL strings, `commit`, and storage failures are not modelled. Each operation acts directly on in-memory tables and always completes.
- Row order from SQLite without `ORDER BY` is unspecified. The model returns rows in insertion order; only `SelectAppend`, `SelectConcat` and `App.Database.GetExpenses`, which returns `Select` of its query, say anything about order.
- Row ids beyond SQLite's 64-bit maximum are not modelled. At that maximum SQLite picks ids at random.
- The float nature of `amount` (`REAL`) is not modelled; it is a `real` that is only stored and returned.
- `str(date)` conversion of the widgets' dates is not modelled. Bounds that are not strings are not modelled either: a bound is `None` or a string.
- `login` returns the row tuple `(id,)` in app.py. Here it returns the id itself, or nothing.
