# User accounts of the print-shop system, in Dafny

This project models the user-account module of the print-shop management
system (`src/modules/usuarios.py`). The module stores accounts in the SQLite
table `usuarios`. It creates, looks up, updates and deletes accounts, checks
logins, and lists accounts by name or by role.

Here the table is an in-memory store. `Store.UserStore` holds a map from id
to record and the next id that `AUTOINCREMENT` will hand out. Each function of
the module is a method or function over that store:

- `criar_usuario`, `atualizar_usuario` and `deletar_usuario` are methods that
  change the store;
- `buscar_usuario_por_email`, `buscar_usuario_por_id` and `contar_usuarios`
  are functions;
- the two listings and `verificar_login` are methods that only read.

Files:

- `wrappers.dfy`: `Option`, the model of Python's `None`.
- `text.dfy`: `str.strip()`, ASCII lower-casing (SQLite's `LOWER()`), and the
  BINARY collation behind `ORDER BY nome`, with their algebra (idempotence,
  `Lower` and `Strip` commute, the collation is a total preorder).
- `accounts.dfy`: the record, the table as a value and its invariant (emails
  unique ignoring case, every row written in normalised form). It also holds
  the decision functions for create and update, the `SET` list built by
  update, and the lemmas about them.
- `store.dfy`: the store class and its operations. Each operation is proved
  against the functions of `accounts.dfy` and keeps the store's invariant.
- `scenarios.dfy`: two creates with the same email in different case and
  padding. The second is refused and the count stays at 1.

Results follow the code. `criar_usuario` returns `True`, returns `False`, or
raises a `ValueError`. These become `Created`, `EmailTaken` and
`Invalid(error)`, one error per message, in the order the code checks.
`atualizar_usuario` returns `False` on eight different paths. Seven are
modelled, one per `UpdateResult` value other than `Updated`, which stands for
`True`. The eighth, the storage-error handler at lines 361-363, is left out
with the other storage errors.

Behaviour modelled as the code has it, where a plain reading of the module's
documentation might suggest otherwise:

- The role values are `admin` and `operador`.
- Blank means empty after `strip()`. The `'@'` test looks at the raw, untrimmed
  email.
- The lookup by email trims its input before comparing with `LOWER()`.
  `verificar_login` only rejects empty arguments. A blank email reaches the
  lookup and finds nothing.
- In `atualizar_usuario`, whether the email changed is decided by comparing
  the raw new email with the stored one, ignoring case but not padding. The
  duplicate lookup then trims. Resubmitting one's own email with a leading
  space therefore finds one's own row and is refused as a duplicate.
  `Accounts.PaddedOwnEmailIsTaken` states this.
- The password length test counts the raw password, spaces included. The
  password is hashed untrimmed.

## Model

| member | source | states |
|---|---|---|
| Text.IsSpace | src/modules/usuarios.py:68 | The characters `strip()` removes: exactly those for which `str.isspace()` holds |
| Text.Strip | src/modules/usuarios.py:68-72 | What `strip()` yields has no white space at either end |
| Text.StripIsInfix | src/modules/usuarios.py:68-72 | `strip()` keeps the part of the input between a prefix and a suffix made only of white space |
| Text.TrimStartShape | src/modules/usuarios.py:99 | Leading trim drops a run of white space and stops at the first other character |
| Text.TrimEndShape | src/modules/usuarios.py:99 | Trailing trim drops a run of white space and stops at the last other character |
| Text.StripIdempotent | src/modules/usuarios.py:99 | Trimming a trimmed value changes nothing |
| Text.StripKeeps | src/modules/usuarios.py:73-74 | A non-space character of the input, such as '@', survives trimming |
| Text.IsBlank | src/modules/usuarios.py:68-72 | `not s or not s.strip()`: the value is empty or only white space (also lines 181 and 304, 308, 323, 332 through `Supplied`) |
| Text.Lower | src/modules/usuarios.py:189 | Lower-casing keeps the length and maps each character through ASCII lower-case |
| Text.LowerIdempotent | src/modules/usuarios.py:99 | Lower-casing twice equals lower-casing once |
| Text.LowerStrip | src/modules/usuarios.py:99 | Lower-casing and trimming commute |
| Text.NameLe | src/modules/usuarios.py:134 | A name sorts at or before another under the BINARY collation: code-point lexicographic, a proper prefix first (also line 485) |
| Text.NameLeReflexive | src/modules/usuarios.py:134 | The name order puts every name at or before itself |
| Text.NameLeTotal | src/modules/usuarios.py:134 | Any two names are comparable under `ORDER BY nome` |
| Text.NameLeTransitive | src/modules/usuarios.py:134 | The name order is transitive |
| Accounts.ValidRole | src/modules/usuarios.py:80-81 | The role is `admin` or `operador`, the list tested at lines 80, 333 and 476 |
| Accounts.Public | src/modules/usuarios.py:146-153 | The record handed to callers: id, name, email, role and both timestamps, never the hash (also lines 248-255 and 438) |
| Accounts.EmailMatches | src/modules/usuarios.py:189-192 | A row matches when `LOWER(email) = LOWER(?)` holds with the trimmed input as the parameter |
| Accounts.EmailInUse | src/modules/usuarios.py:85-86 | Some row, the caller's own included, matches the trimmed input ignoring case (also lines 311-312) |
| Accounts.FindByEmail | src/modules/usuarios.py:181-211 | Blank input finds nothing; otherwise a row is returned exactly when some row's email matches the trimmed input ignoring case; that row is in the table, hash included, and under unique emails no other row matches |
| Accounts.BlankMatchesNothing | src/modules/usuarios.py:181-183 | No stored email matches a blank input |
| Accounts.FindByEmailFinds | src/modules/usuarios.py:186-211 | A row matching a non-blank input is the one the lookup returns |
| Accounts.FindById | src/modules/usuarios.py:230-258 | A record is returned exactly when the id is positive and present; it is that row without the hash |
| Accounts.CreateValidation | src/modules/usuarios.py:68-81 | For each `ValueError`: it is raised exactly when every earlier check passed and its own check fails; no error exactly when all five checks pass |
| Accounts.CreateOutcome | src/modules/usuarios.py:68-102 | Created exactly when validation passes and no row matches the email; refused as duplicate exactly when validation passes and one does; an error exactly when validation fails |
| Accounts.NewAccount | src/modules/usuarios.py:91-99 | The record the `INSERT` writes: trimmed name, trimmed lower-cased email, digest of the raw password, the role as given, creation and update time both `now` |
| Accounts.NormalisedEmailWellFormed | src/modules/usuarios.py:73-74 | A trimmed, lower-cased email that contained '@' is trimmed, lower-case and still contains '@' |
| Accounts.NewAccountWellFormed | src/modules/usuarios.py:99 | The inserted record has a non-empty trimmed name, a trimmed lower-case email with '@' and a valid role |
| Accounts.InsertKeepsEmailsUnique | src/modules/usuarios.py:84-88 | Inserting a row whose email no row matches keeps emails unique |
| Accounts.CreateKeepsInvariant | src/modules/usuarios.py:84-102 | A successful create keeps the table invariant |
| Accounts.CreatedIsFound | src/modules/usuarios.py:91-102 | After a successful create, looking up the email in any case or padding returns exactly the new row |
| Accounts.SecondCreateIsRefused | src/modules/usuarios.py:84-88 | A second create with the same email up to case and padding is not accepted |
| Accounts.Supplied | src/modules/usuarios.py:304 | `x is not None and x.strip()`: the field takes part in the update (the same test at lines 308, 323 and 332) |
| Accounts.UpdateOutcome | src/modules/usuarios.py:289-343 | Updated exactly when the id is positive and present, every supplied field passes its check, and at least one field is supplied; the id failures are exact; nothing-to-update exactly when the id is positive and present and no field is supplied |
| Accounts.UpdatedAccount | src/modules/usuarios.py:304-346 | The row after a successful update: each supplied field in its stored form (name trimmed, email trimmed and lower-cased, password digested, role as given), every other field kept, the update time `now` |
| Accounts.ApplyChanges | src/modules/usuarios.py:350-356 | `UPDATE usuarios SET ... WHERE id = ?`: the entries of the `SET` list applied to the row in order |
| Accounts.ApplyChangesAppend | src/modules/usuarios.py:352-355 | Applying two `SET` lists in turn equals applying their concatenation |
| Accounts.RequestedChanges | src/modules/usuarios.py:304-343 | The assembled `SET` list is empty exactly when no field is supplied |
| Accounts.ApplyRequestedChanges | src/modules/usuarios.py:304-356 | Running the assembled `UPDATE`, with the update time last, yields the record where only the supplied fields change, normalised, and the update time is refreshed |
| Accounts.ReplaceKeepsEmailsUnique | src/modules/usuarios.py:310-314 | Replacing a row keeps emails unique when its new email is its old one up to case or matches no row |
| Accounts.SameEmailUnchanged | src/modules/usuarios.py:310 | When the raw input equals the stored email up to case, the stored form of the input is the stored email |
| Accounts.UpdatedEmailIsFree | src/modules/usuarios.py:308-321 | The email an accepted update writes is the row's own or matches no row |
| Accounts.UpdatedAccountWellFormed | src/modules/usuarios.py:304-336 | An accepted update writes a well-formed record |
| Accounts.UpdateKeepsInvariant | src/modules/usuarios.py:304-356 | A successful update keeps the table invariant, email uniqueness included |
| Accounts.PaddedOwnEmailIsTaken | src/modules/usuarios.py:308-314 | Submitting one's own email with a leading space is refused as a duplicate |
| Accounts.LoginAccepts | src/modules/usuarios.py:422-435 | The login test: both arguments non-empty, and a row whose email matches the trimmed input ignoring case stores the digest of the password |
| Accounts.CreatedCanLogIn | src/modules/usuarios.py:422-439 | A user just created passes the login check with the password given, under any spelling of the email that looks it up |
| Accounts.UpdatedPasswordLogsIn | src/modules/usuarios.py:323-330 | After a password-only update, the stored email and the new password pass the login check |
| Accounts.DeletedCannotLogIn | src/modules/usuarios.py:393 | After a row is deleted, its email fails the login check whatever the password |
| Accounts.InsertByName | src/modules/usuarios.py:134 | Placing an id into a name-ordered list gives a name-ordered list with one more element, the same members plus the id, distinct when the old list was and the id is new |
| Accounts.SortedPrepend | src/modules/usuarios.py:134 | Prepending a name no greater than the first keeps the list name-ordered |
| Accounts.DistinctLength | src/modules/usuarios.py:131-157 | A list of distinct ids holding exactly a set's members has the set's size |
| Store.UserStore.constructor | src/database/setup.py:57-58 | The store starts empty, invariant holding, with next id 1 |
| Store.UserStore.HashPassword | src/modules/usuarios.py:24-45 | The digest is 64 lowercase hex digits, a fixed function of the password |
| Store.UserStore.Count | src/modules/usuarios.py:457-458 | The count is the number of rows |
| Store.UserStore.CreateUser | src/modules/usuarios.py:48-102 | Outcome equals `CreateOutcome`; on success exactly one row is added, under the fresh next id, holding the normalised record, and the count grows by one; otherwise nothing changes; the invariant is kept |
| Store.UserStore.UpdateUser | src/modules/usuarios.py:265-359 | Outcome equals `UpdateOutcome`; on success only that row changes, to the updated record; otherwise nothing changes; the invariant is kept |
| Store.AssembleChanges | src/modules/usuarios.py:301-343 | A failing field check reports the update's outcome; otherwise the list is the requested one, empty exactly when there is nothing to update |
| Store.UserStore.DeleteUser | src/modules/usuarios.py:381-397 | Deletes exactly when the id is positive and present; then exactly that row is gone and the count drops by one; otherwise nothing changes; afterwards the lookup by id finds nothing |
| Store.UserStore.VerifyLogin | src/modules/usuarios.py:422-442 | A record is returned exactly when the login check accepts; it is the matching row, whose stored digest equals the password's, without the hash |
| Store.UserStore.OrderByName | src/modules/usuarios.py:131-134 | The ids come back once each, all of them and nothing else, names non-decreasing |
| Store.UserStore.ToPublic | src/modules/usuarios.py:144-154 | Each listed row becomes its record without the hash, in order |
| Store.UserStore.ListUsers | src/modules/usuarios.py:109-157 | Every row once, names non-decreasing, none with a hash |
| Store.UserStore.ListByRole | src/modules/usuarios.py:476-507 | Nothing for a role outside `admin`/`operador`; otherwise exactly the rows with that role, once each, names non-decreasing, without the hash |
| Scenarios.DuplicateEmailScenario | src/modules/usuarios.py:84-88 | In a fresh store, creating `ana@b.co` succeeds; creating ` ANA@B.co` is refused as a duplicate; the count is 1 |

## Left out

- SHA-256 (`hashlib`, FIPS 180-4) is not modelled. The digest is a function the store is built with, returning 64 lowercase hex digits. Every result holds for every such function. A claim that different passwords fail to log in needs collision resistance, so it is not stated.
- Unicode case folding is not modelled. `Lower` covers ASCII only, as SQLite's `LOWER()` does. Python's `str.lower()` agrees with it on ASCII text only.
- Timestamps are not modelled. `CURRENT_TIMESTAMP` is a `now` argument of the writing methods.
- Storage errors are not modelled. The code swallows them and turns them into `False`, `[]`, `None` or `0`; the store cannot fail.
- Logging with `print` is left out. It has no effect on results.
- The race between the duplicate check and the write is not modelled: each operation runs to completion in one step.
- The database layer is not part of this model: `src/database/connection.py`, the DDL and seed data of `src/database/setup.py`, the desktop form `src/ui/usuarios_ui.py`, the demo `src/tests/exemplo_uso.py` and the in-module demo `executar_testes`.
  - The DDL names the role column `tipo` and has an unused `ativo` column. The module writes `perfil`, which the model follows. Against that DDL every statement naming `perfil` (lines 95-99, 132, 187, 236 and 482-484) would fail, and the module would swallow the error into `False`, `[]` or `None`. The model describes the module against a table that has a `perfil` column.
  - The seed row has a plaintext password and a role outside the two valid ones. The model assumes every row is written through the module.
- `ORDER BY nome` with equal names leaves the order unspecified. The model states non-decreasing names and no particular tie order.
- The lookup by email takes the first row of its result. The model relies on the invariant that at most one row matches.
