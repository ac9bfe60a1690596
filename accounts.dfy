/**
  The `usuarios` table as a value, and the decisions the user-account module
  takes before it touches the table.

  A table maps each id to its account record. The id is the key, so it is not
  repeated inside the record. Everything in this module is pure: the store
  class (`Store.UserStore`) calls these functions from its methods, and the
  lemmas below state what the store's operations keep true.
*/
module Accounts {
  import opened Wrappers
  import opened Text

  /** An abstract clock reading: what `CURRENT_TIMESTAMP` gave at a write. */
  type Timestamp = int

  predicate IsHexDigit(c: char) {
    '0' <= c <= '9' || 'a' <= c <= 'f'
  }

  /** What `hexdigest()` of a SHA-256 object returns: 64 lowercase hex digits. */
  predicate IsHexDigest(h: string) {
    |h| == 64 && forall i :: 0 <= i < |h| ==> IsHexDigit(h[i])
  }

  type Digest = h: string | IsHexDigest(h)
    witness seq(64, _ => '0')

  /**
    The password digest. The store is built with one such function and uses
    it for every call, so it is deterministic; nothing else is assumed of it.
  */
  type Hasher = string -> Digest

  /** The two roles the module accepts. */
  predicate ValidRole(role: string) {
    role == "admin" || role == "operador"
  }

  /** A row of `usuarios`, without its id. */
  datatype Account = Account(
    name: string,
    email: string,
    passwordHash: Digest,
    role: string,
    createdAt: Timestamp,
    updatedAt: Timestamp)

  type Table = map<int, Account>

  /** A row with its id and its password hash, as the lookup by email returns it. */
  datatype Row = Row(id: int, account: Account)

  /** A row as listings, the lookup by id and login return it: there is no hash field. */
  datatype PublicUser = PublicUser(
    id: int,
    name: string,
    email: string,
    role: string,
    createdAt: Timestamp,
    updatedAt: Timestamp)

  function Public(id: int, a: Account): PublicUser {
    PublicUser(id, a.name, a.email, a.role, a.createdAt, a.updatedAt)
  }

  // ---------------------------------------------------------------------
  // The table invariant
  // ---------------------------------------------------------------------

  /** The email matches `email` the way `WHERE LOWER(email) = LOWER(?)` does with the trimmed input. */
  predicate EmailMatches(a: Account, email: string) {
    Lower(a.email) == Lower(Strip(email))
  }

  /** No two rows share an email, ignoring case. */
  ghost predicate EmailsUnique(t: Table) {
    forall i, j :: i in t && j in t && i != j ==> Lower(t[i].email) != Lower(t[j].email)
  }

  /** What every write of the module leaves in a row. */
  ghost predicate WellFormed(a: Account) {
    && a.name != [] && IsStripped(a.name)
    && IsStripped(a.email) && Lower(a.email) == a.email && '@' in a.email
    && ValidRole(a.role)
  }

  ghost predicate TableInvariant(t: Table) {
    && EmailsUnique(t)
    && (forall id :: id in t ==> 0 < id && WellFormed(t[id]))
  }

  // ---------------------------------------------------------------------
  // Queries
  // ---------------------------------------------------------------------

  /** Some row's email matches `email` (the row may be any row, the caller's own included). */
  predicate EmailInUse(t: Table, email: string) {
    exists id :: id in t && EmailMatches(t[id], email)
  }

  /**
    `buscar_usuario_por_email`: a blank email finds nothing; otherwise the row
    whose email matches the trimmed input ignoring case, hash included. The
    source takes the first row of the result, relying on emails being unique:
    under `EmailsUnique` there is at most one.
  */
  function FindByEmail(t: Table, email: string): (r: Option<Row>)
    requires EmailsUnique(t)
    ensures r.Some? <==> !IsBlank(email) && EmailInUse(t, email)
    ensures r.Some? ==> r.value.id in t && r.value.account == t[r.value.id]
    ensures r.Some? ==> forall id :: id in t && EmailMatches(t[id], email) ==> id == r.value.id
  {
    if IsBlank(email) then None
    else if EmailInUse(t, email) then
      var id :| id in t && EmailMatches(t[id], email);
      Some(Row(id, t[id]))
    else None
  }

  /** A blank input matches no well-formed row: every stored email holds an '@'. */
  lemma BlankMatchesNothing(t: Table, email: string)
    requires TableInvariant(t) && IsBlank(email)
    ensures !EmailInUse(t, email)
  {
    forall id | id in t ensures !EmailMatches(t[id], email) {
      assert |Lower(t[id].email)| > 0;
    }
  }

  /** `buscar_usuario_por_id`: a non-positive or unknown id finds nothing; the hash is never returned. */
  function FindById(t: Table, id: int): (r: Option<PublicUser>)
    ensures r.Some? <==> 0 < id && id in t
    ensures r.Some? ==> r.value == Public(id, t[id]) && r.value.id == id
  {
    if id <= 0 || id !in t then None else Some(Public(id, t[id]))
  }

  // ---------------------------------------------------------------------
  // Create
  // ---------------------------------------------------------------------

  /** The `ValueError`s of `criar_usuario`, in the order it checks them. */
  datatype CreateError = NameRequired | EmailRequired | EmailMalformed | PasswordTooShort | RoleInvalid

  /** `Created` is `True`, `EmailTaken` is `False`, `Invalid` is a raised `ValueError`. */
  datatype CreateResult = Created | EmailTaken | Invalid(error: CreateError)

  /** The argument checks of `criar_usuario`: the first one that fails, if any. */
  function CreateValidation(name: string, email: string, password: string, role: string): (r: Option<CreateError>)
    ensures r == None <==> !IsBlank(name) && !IsBlank(email) && '@' in email && |password| >= 4 && ValidRole(role)
    ensures r == Some(NameRequired) <==> IsBlank(name)
    ensures r == Some(EmailRequired) <==> !IsBlank(name) && IsBlank(email)
    ensures r == Some(CreateError.EmailMalformed) <==> !IsBlank(name) && !IsBlank(email) && '@' !in email
    ensures r == Some(CreateError.PasswordTooShort) <==> !IsBlank(name) && !IsBlank(email) && '@' in email && |password| < 4
    ensures r == Some(CreateError.RoleInvalid) <==>
      !IsBlank(name) && !IsBlank(email) && '@' in email && |password| >= 4 && !ValidRole(role)
  {
    if IsBlank(name) then Some(NameRequired)
    else if IsBlank(email) then Some(EmailRequired)
    else if '@' !in email then Some(CreateError.EmailMalformed)
    else if |password| < 4 then Some(CreateError.PasswordTooShort)
    else if !ValidRole(role) then Some(CreateError.RoleInvalid)
    else None
  }

  /** What `criar_usuario` reports for a table and its arguments. */
  function CreateOutcome(t: Table, name: string, email: string, password: string, role: string): (r: CreateResult)
    ensures r == Created <==> CreateValidation(name, email, password, role) == None && !EmailInUse(t, email)
    ensures r == CreateResult.EmailTaken <==> CreateValidation(name, email, password, role) == None && EmailInUse(t, email)
    ensures r.Invalid? <==> CreateValidation(name, email, password, role).Some?
  {
    match CreateValidation(name, email, password, role)
    case Some(e) => Invalid(e)
    case None => if EmailInUse(t, email) then CreateResult.EmailTaken else Created
  }

  /** The record `criar_usuario` inserts. */
  function NewAccount(name: string, email: string, password: string, role: string, hash: Hasher, now: Timestamp): Account {
    Account(Strip(name), Lower(Strip(email)), hash(password), role, now, now)
  }

  /** `email.strip().lower()` of an email containing '@' is a well-formed stored email. */
  lemma NormalisedEmailWellFormed(email: string)
    requires '@' in email
    ensures IsStripped(Lower(Strip(email)))
    ensures Lower(Lower(Strip(email))) == Lower(Strip(email))
    ensures '@' in Lower(Strip(email))
  {
    StripIdempotent(email);
    LowerIdempotent(Strip(email));
    LowerStrip(Strip(email));
    StripKeeps(email, '@');
    LowerKeepsAt(Strip(email));
  }

  /** Adding a row whose email no row matches keeps emails unique. */
  lemma InsertKeepsEmailsUnique(t: Table, id: int, a: Account, email: string)
    requires EmailsUnique(t) && id !in t
    requires !EmailInUse(t, email) && Lower(a.email) == Lower(Strip(email))
    ensures EmailsUnique(t[id := a])
  {
    var t' := t[id := a];
    forall i, j | i in t' && j in t' && i != j
      ensures Lower(t'[i].email) != Lower(t'[j].email)
    {
      if i == id {
        assert !EmailMatches(t[j], email);
      } else if j == id {
        assert !EmailMatches(t[i], email);
      }
    }
  }

  /** A successful create keeps the invariant, in particular email uniqueness. */
  lemma CreateKeepsInvariant(t: Table, id: int, name: string, email: string, password: string, role: string,
                             hash: Hasher, now: Timestamp)
    requires TableInvariant(t) && 0 < id && id !in t
    requires CreateOutcome(t, name, email, password, role) == Created
    ensures TableInvariant(t[id := NewAccount(name, email, password, role, hash, now)])
  {
    var a := NewAccount(name, email, password, role, hash, now);
    NewAccountWellFormed(name, email, password, role, hash, now);
    InsertKeepsEmailsUnique(t, id, a, email);
    PutKeepsInvariant(t, id, a);
  }

  lemma NewAccountWellFormed(name: string, email: string, password: string, role: string, hash: Hasher, now: Timestamp)
    requires !IsBlank(name) && '@' in email && ValidRole(role)
    ensures WellFormed(NewAccount(name, email, password, role, hash, now))
  {
    NormalisedEmailWellFormed(email);
  }

  lemma PutKeepsInvariant(t: Table, id: int, a: Account)
    requires TableInvariant(t) && 0 < id && WellFormed(a) && EmailsUnique(t[id := a])
    ensures TableInvariant(t[id := a])
  {
  }

  /**
    After a successful create, looking the new email up in any letter case
    (and with any surrounding white space) finds exactly the new row.
  */
  lemma CreatedIsFound(t: Table, id: int, name: string, email: string, password: string, role: string,
                       hash: Hasher, now: Timestamp, lookup: string)
    requires TableInvariant(t) && 0 < id && id !in t
    requires CreateOutcome(t, name, email, password, role) == Created
    requires Lower(Strip(lookup)) == Lower(Strip(email))
    ensures TableInvariant(t[id := NewAccount(name, email, password, role, hash, now)])
    ensures FindByEmail(t[id := NewAccount(name, email, password, role, hash, now)], lookup)
            == Some(Row(id, NewAccount(name, email, password, role, hash, now)))
  {
    var a := NewAccount(name, email, password, role, hash, now);
    CreateKeepsInvariant(t, id, name, email, password, role, hash, now);
    LookupMatchesNewEmail(email, lookup);
    FindByEmailFinds(t[id := a], id, lookup);
  }

  /**
    Creating a second account with the same email, in any letter case or
    padding, is refused as a duplicate (unless one of its arguments is
    already invalid): the count stays where the first create left it.
  */
  lemma SecondCreateIsRefused(t: Table, id: int, name: string, email: string, password: string, role: string,
                              hash: Hasher, now: Timestamp,
                              name2: string, email2: string, password2: string, role2: string)
    requires TableInvariant(t) && 0 < id && id !in t
    requires CreateOutcome(t, name, email, password, role) == Created
    requires Lower(Strip(email2)) == Lower(Strip(email))
    ensures CreateOutcome(t[id := NewAccount(name, email, password, role, hash, now)], name2, email2, password2, role2)
            != Created
  {
    var a := NewAccount(name, email, password, role, hash, now);
    LookupMatchesNewEmail(email, email2);
    assert EmailMatches(t[id := a][id], email2);
  }

  lemma LookupMatchesNewEmail(email: string, lookup: string)
    requires !IsBlank(email) && Lower(Strip(lookup)) == Lower(Strip(email))
    ensures !IsBlank(lookup) && Lower(Lower(Strip(email))) == Lower(Strip(lookup))
  {
    LowerIdempotent(Strip(email));
    assert |Lower(Strip(lookup))| == |Strip(lookup)|;
  }

  /** Under unique emails, a row matching a non-blank input is the one the lookup returns. */
  lemma FindByEmailFinds(t: Table, id: int, email: string)
    requires EmailsUnique(t) && id in t && !IsBlank(email) && EmailMatches(t[id], email)
    ensures FindByEmail(t, email) == Some(Row(id, t[id]))
  {
  }

  // ---------------------------------------------------------------------
  // Update
  // ---------------------------------------------------------------------

  /** Python's `value is not None and value.strip()`: the field takes part in the update. */
  predicate Supplied(field: Option<string>) {
    field.Some? && !IsBlank(field.value)
  }

  /** `Updated` is `True`; every other outcome is `False`. */
  datatype UpdateResult =
    | Updated
    | InvalidId
    | NotFound
    | EmailTaken
    | EmailMalformed
    | PasswordTooShort
    | RoleInvalid
    | NothingToUpdate

  /**
    What `atualizar_usuario` reports. The duplicate check runs only when the
    raw (untrimmed) new email differs, ignoring case, from the stored one, and
    it looks at every row, the user's own included.
  */
  function UpdateOutcome(t: Table, id: int, name: Option<string>, email: Option<string>,
                         password: Option<string>, role: Option<string>): (r: UpdateResult)
    ensures r == Updated <==>
      && 0 < id && id in t
      && (Supplied(email) ==> ('@' in email.value
                              && (Lower(email.value) == Lower(t[id].email) || !EmailInUse(t, email.value))))
      && (Supplied(password) ==> |password.value| >= 4)
      && (Supplied(role) ==> ValidRole(role.value))
      && (Supplied(name) || Supplied(email) || Supplied(password) || Supplied(role))
    ensures r == InvalidId <==> id <= 0
    ensures r == NotFound <==> 0 < id && id !in t
    ensures r == NothingToUpdate <==>
      && 0 < id && id in t
      && !Supplied(name) && !Supplied(email) && !Supplied(password) && !Supplied(role)
  {
    if id <= 0 then InvalidId
    else if id !in t then NotFound
    else if Supplied(email) && Lower(email.value) != Lower(t[id].email) && EmailInUse(t, email.value) then UpdateResult.EmailTaken
    else if Supplied(email) && '@' !in email.value then UpdateResult.EmailMalformed
    else if Supplied(password) && |password.value| < 4 then UpdateResult.PasswordTooShort
    else if Supplied(role) && !ValidRole(role.value) then UpdateResult.RoleInvalid
    else if !Supplied(name) && !Supplied(email) && !Supplied(password) && !Supplied(role) then NothingToUpdate
    else Updated
  }

  /**
    The record after a successful update, field by field: a supplied field
    takes its normalised new value, every other field keeps its value, the
    creation time is kept and the update time is `now`.
  */
  function UpdatedAccount(a: Account, name: Option<string>, email: Option<string>, password: Option<string>,
                          role: Option<string>, hash: Hasher, now: Timestamp): Account {
    a.(name := if Supplied(name) then Strip(name.value) else a.name,
       email := if Supplied(email) then Lower(Strip(email.value)) else a.email,
       passwordHash := if Supplied(password) then hash(password.value) else a.passwordHash,
       role := if Supplied(role) then role.value else a.role,
       updatedAt := now)
  }

  /** One `column = ?` entry of the `SET` clause `atualizar_usuario` assembles. */
  datatype Change =
    | SetName(name: string)
    | SetEmail(email: string)
    | SetPasswordHash(hash: Digest)
    | SetRole(role: string)
    | SetUpdatedAt(at: Timestamp)

  function ApplyChange(a: Account, c: Change): Account {
    match c
    case SetName(n) => a.(name := n)
    case SetEmail(e) => a.(email := e)
    case SetPasswordHash(h) => a.(passwordHash := h)
    case SetRole(p) => a.(role := p)
    case SetUpdatedAt(at) => a.(updatedAt := at)
  }

  /** The row after `UPDATE usuarios SET <changes> WHERE id = ?`. */
  function ApplyChanges(a: Account, cs: seq<Change>): Account
    decreases |cs|
  {
    if cs == [] then a else ApplyChange(ApplyChanges(a, cs[..|cs| - 1]), cs[|cs| - 1])
  }

  /** Applying two lists of changes in turn is applying their concatenation. */
  lemma {:induction false} ApplyChangesAppend(a: Account, xs: seq<Change>, ys: seq<Change>)
    ensures ApplyChanges(a, xs + ys) == ApplyChanges(ApplyChanges(a, xs), ys)
    decreases |ys|
  {
    if ys == [] {
      assert xs + ys == xs;
    } else {
      var zs := ys[..|ys| - 1];
      assert (xs + ys)[..|xs + ys| - 1] == xs + zs;
      ApplyChangesAppend(a, xs, zs);
    }
  }

  /** The `SET` entries `atualizar_usuario` collects for the name, when it is supplied. */
  function NameChange(name: Option<string>): seq<Change> {
    if Supplied(name) then [SetName(Strip(name.value))] else []
  }

  function EmailChange(email: Option<string>): seq<Change> {
    if Supplied(email) then [SetEmail(Lower(Strip(email.value)))] else []
  }

  function PasswordChange(password: Option<string>, hash: Hasher): seq<Change> {
    if Supplied(password) then [SetPasswordHash(hash(password.value))] else []
  }

  function RoleChange(role: Option<string>): seq<Change> {
    if Supplied(role) then [SetRole(role.value)] else []
  }

  /**
    The entries collected before the update time is appended, in the order
    the source adds them; the list is empty exactly when no field is supplied.
  */
  function RequestedChanges(name: Option<string>, email: Option<string>, password: Option<string>,
                            role: Option<string>, hash: Hasher): (cs: seq<Change>)
    ensures cs == [] <==> !Supplied(name) && !Supplied(email) && !Supplied(password) && !Supplied(role)
  {
    NameChange(name) + EmailChange(email) + PasswordChange(password, hash) + RoleChange(role)
  }

  /**
    Running the assembled `UPDATE` statement, with `data_atualizacao = now`
    last, yields exactly the record `UpdatedAccount` describes.
  */
  lemma ApplyRequestedChanges(a: Account, name: Option<string>, email: Option<string>, password: Option<string>,
                              role: Option<string>, hash: Hasher, now: Timestamp)
    ensures ApplyChanges(a, RequestedChanges(name, email, password, role, hash) + [SetUpdatedAt(now)])
            == UpdatedAccount(a, name, email, password, role, hash, now)
  {
    ApplyFieldChanges(a, Supplied(name), if Supplied(name) then Strip(name.value) else a.name,
                      Supplied(email), if Supplied(email) then Lower(Strip(email.value)) else a.email,
                      Supplied(password), if Supplied(password) then hash(password.value) else a.passwordHash,
                      Supplied(role), if Supplied(role) then role.value else a.role, now);
  }

  /** `ApplyRequestedChanges` with the supplied flags and the new values as plain parameters. */
  lemma ApplyFieldChanges(a: Account, sn: bool, n: string, se: bool, e: string, sp: bool, p: Digest,
                          sr: bool, r: string, now: Timestamp)
    ensures ApplyChanges(a, (if sn then [SetName(n)] else []) + (if se then [SetEmail(e)] else [])
                            + (if sp then [SetPasswordHash(p)] else []) + (if sr then [SetRole(r)] else [])
                            + [SetUpdatedAt(now)])
            == a.(name := if sn then n else a.name, email := if se then e else a.email,
                  passwordHash := if sp then p else a.passwordHash, role := if sr then r else a.role,
                  updatedAt := now)
  {
    var cn: seq<Change> := if sn then [SetName(n)] else [];
    var ce: seq<Change> := if se then [SetEmail(e)] else [];
    var cp: seq<Change> := if sp then [SetPasswordHash(p)] else [];
    var cr: seq<Change> := if sr then [SetRole(r)] else [];
    ApplyChangesAppend(a, cn, ce);
    ApplyChangesAppend(a, cn + ce, cp);
    ApplyChangesAppend(a, cn + ce + cp, cr);
    ApplyChangesAppend(a, cn + ce + cp + cr, [SetUpdatedAt(now)]);
  }

  /**
    Replacing a row's email keeps emails unique when no other row matches
    the new one: either no row matches the input at all, or the new email
    is the row's current email up to case.
  */
  lemma ReplaceKeepsEmailsUnique(t: Table, id: int, a: Account)
    requires EmailsUnique(t) && id in t
    requires Lower(a.email) == Lower(t[id].email) ||
             forall k :: k in t ==> Lower(t[k].email) != Lower(a.email)
    ensures EmailsUnique(t[id := a])
  {
  }

  /**
    The shortcut of `atualizar_usuario`: when the raw input equals the stored
    (trimmed, lower-case) email up to case, the email it writes is the stored one.
  */
  lemma SameEmailUnchanged(stored: string, email: string)
    requires IsStripped(stored) && Lower(stored) == stored
    requires Lower(email) == Lower(stored)
    ensures Lower(Strip(email)) == stored
  {
    LowerStrip(email);
    StrippedIsFixed(stored);
  }

  /** A successful update keeps the invariant, in particular email uniqueness. */
  lemma UpdateKeepsInvariant(t: Table, id: int, name: Option<string>, email: Option<string>,
                             password: Option<string>, role: Option<string>, hash: Hasher, now: Timestamp)
    requires TableInvariant(t)
    requires UpdateOutcome(t, id, name, email, password, role) == Updated
    ensures TableInvariant(t[id := UpdatedAccount(t[id], name, email, password, role, hash, now)])
  {
    var a := UpdatedAccount(t[id], name, email, password, role, hash, now);
    UpdatedAccountWellFormed(t[id], name, email, password, role, hash, now);
    UpdatedEmailIsFree(t, id, email, a);
    ReplaceKeepsEmailsUnique(t, id, a);
    PutKeepsInvariant(t, id, a);
  }

  lemma UpdatedAccountWellFormed(a: Account, name: Option<string>, email: Option<string>, password: Option<string>,
                                 role: Option<string>, hash: Hasher, now: Timestamp)
    requires WellFormed(a)
    requires Supplied(email) ==> '@' in email.value
    requires Supplied(role) ==> ValidRole(role.value)
    ensures WellFormed(UpdatedAccount(a, name, email, password, role, hash, now))
  {
    if Supplied(email) {
      NormalisedEmailWellFormed(email.value);
    }
  }

  /** The email an accepted update writes is the row's own one or matches no row. */
  lemma UpdatedEmailIsFree(t: Table, id: int, email: Option<string>, a: Account)
    requires TableInvariant(t) && id in t
    requires Supplied(email) ==> (Lower(email.value) == Lower(t[id].email) || !EmailInUse(t, email.value))
    requires a.email == if Supplied(email) then Lower(Strip(email.value)) else t[id].email
    ensures Lower(a.email) == Lower(t[id].email) ||
            forall k :: k in t ==> Lower(t[k].email) != Lower(a.email)
  {
    if Supplied(email) {
      var e := email.value;
      if Lower(e) == Lower(t[id].email) {
        SameEmailUnchanged(t[id].email, e);
      } else {
        LowerIdempotent(Strip(e));
        forall k | k in t ensures Lower(t[k].email) != Lower(a.email) {
          assert !EmailMatches(t[k], e);
        }
      }
    }
  }

  /**
    The untrimmed comparison in `atualizar_usuario`: resubmitting one's own
    email with a leading space skips the "same email" shortcut, and the
    lookup (which trims) then finds the user's own row, so the update is
    refused as a duplicate.
  */
  lemma PaddedOwnEmailIsTaken(t: Table, id: int)
    requires TableInvariant(t) && id in t
    ensures UpdateOutcome(t, id, None, Some([' '] + t[id].email), None, None) == UpdateResult.EmailTaken
  {
    StripOneSpace(t[id].email);
    assert |Lower([' '] + t[id].email)| != |Lower(t[id].email)|;
  }

  // ---------------------------------------------------------------------
  // Login
  // ---------------------------------------------------------------------

  /**
    `verificar_login` accepts: both arguments are non-empty, and some row's
    email matches the input and stores the digest of the password.
  */
  predicate LoginAccepts(t: Table, hash: Hasher, email: string, password: string) {
    && email != [] && password != []
    && exists id :: id in t && EmailMatches(t[id], email) && t[id].passwordHash == hash(password)
  }

  /** A user just created can log in with the password given, under any spelling of the email that looks it up. */
  lemma CreatedCanLogIn(t: Table, id: int, name: string, email: string, password: string, role: string,
                        hash: Hasher, now: Timestamp, lookup: string)
    requires TableInvariant(t) && 0 < id && id !in t
    requires CreateOutcome(t, name, email, password, role) == Created
    requires Lower(Strip(lookup)) == Lower(Strip(email))
    ensures LoginAccepts(t[id := NewAccount(name, email, password, role, hash, now)], hash, lookup, password)
  {
    var a := NewAccount(name, email, password, role, hash, now);
    LookupMatchesNewEmail(email, lookup);
    assert EmailMatches(t[id := a][id], lookup);
  }

  /** After a password-only update, the user logs in with the stored email and the new password. */
  lemma UpdatedPasswordLogsIn(t: Table, id: int, password: string, hash: Hasher, now: Timestamp)
    requires TableInvariant(t) && id in t
    requires UpdateOutcome(t, id, None, None, Some(password), None) == Updated
    ensures LoginAccepts(t[id := UpdatedAccount(t[id], None, None, Some(password), None, hash, now)],
                         hash, t[id].email, password)
  {
    var a := UpdatedAccount(t[id], None, None, Some(password), None, hash, now);
    StrippedIsFixed(t[id].email);
    assert EmailMatches(t[id := a][id], t[id].email);
  }

  /** Once a row is deleted, its email logs nobody in, whatever the password. */
  lemma DeletedCannotLogIn(t: Table, id: int, hash: Hasher, password: string)
    requires TableInvariant(t) && id in t
    ensures !LoginAccepts(t - {id}, hash, t[id].email, password)
  {
    StrippedIsFixed(t[id].email);
    forall k | k in t - {id} ensures !EmailMatches((t - {id})[k], t[id].email) {
      assert Lower(t[k].email) != Lower(t[id].email);
    }
  }

  // ---------------------------------------------------------------------
  // Listings
  // ---------------------------------------------------------------------

  ghost predicate Distinct(s: seq<int>) {
    forall i, j :: 0 <= i < j < |s| ==> s[i] != s[j]
  }

  ghost predicate SortedByName(t: Table, s: seq<int>)
    requires forall i :: 0 <= i < |s| ==> s[i] in t
  {
    forall i, j :: 0 <= i < j < |s| ==> NameLe(t[s[i]].name, t[s[j]].name)
  }

  ghost predicate UsersSortedByName(users: seq<PublicUser>) {
    forall i, j :: 0 <= i < j < |users| ==> NameLe(users[i].name, users[j].name)
  }

  /** A list of distinct ids holding exactly the members of `ids` is as long as `ids` is large. */
  lemma {:induction false} DistinctLength(s: seq<int>, ids: set<int>)
    requires Distinct(s) && forall x :: x in s <==> x in ids
    ensures |s| == |ids|
    decreases |s|
  {
    if s == [] {
      assert forall x :: x !in ids;
      assert ids == {};
    } else {
      var rest := s[1..];
      assert s == [s[0]] + rest;
      assert s[0] !in rest;
      assert forall x :: x in rest <==> x in ids - {s[0]};
      DistinctLength(rest, ids - {s[0]});
    }
  }

  /** One step of `ORDER BY nome`: `id` placed into ids already in name order. */
  function InsertByName(t: Table, s: seq<int>, id: int): (r: seq<int>)
    requires id in t && forall i :: 0 <= i < |s| ==> s[i] in t
    requires SortedByName(t, s)
    ensures |r| == |s| + 1
    ensures forall x :: x in r <==> x in s || x == id
    ensures forall i :: 0 <= i < |r| ==> r[i] in t
    ensures SortedByName(t, r)
    ensures Distinct(s) && id !in s ==> Distinct(r)
  {
    if s == [] then [id]
    else if NameLe(t[id].name, t[s[0]].name) then
      SortedPrepend(t, id, s);
      [id] + s
    else
      NameLeTotal(t[id].name, t[s[0]].name);
      var rest := InsertByName(t, s[1..], id);
      SortedPrepend(t, s[0], rest);
      assert Distinct(s) ==> s[0] !in s[1..];
      [s[0]] + rest
  }

  lemma SortedPrepend(t: Table, x: int, s: seq<int>)
    requires x in t && forall i :: 0 <= i < |s| ==> s[i] in t
    requires SortedByName(t, s)
    requires s != [] ==> NameLe(t[x].name, t[s[0]].name)
    ensures SortedByName(t, [x] + s)
  {
    var r := [x] + s;
    forall i, j | 0 <= i < j < |r|
      ensures NameLe(t[r[i]].name, t[r[j]].name)
    {
      if i == 0 && j > 1 {
        NameLeTransitive(t[x].name, t[s[0]].name, t[s[j - 1]].name);
      }
    }
  }
}
