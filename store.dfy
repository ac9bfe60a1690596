/**
  The `usuarios` table held in memory, and the operations of the
  user-account module (`src/modules/usuarios.py`) as methods over it. Each
  operation runs its checks first and touches the table only once they all
  pass; a failing check leaves the table as it was.
*/
module Store {
  import opened Wrappers
  import opened Text
  import opened Accounts

  class UserStore {
    /** The password digest (SHA-256 in hex in the source), fixed for the store's lifetime. */
    const hash: Hasher
    /** The rows of `usuarios`, by id. */
    var rows: Table
    /** The id `AUTOINCREMENT` gives the next inserted row; ids are never reused. */
    var nextId: int

    ghost predicate Valid()
      reads this
    {
      && 0 < nextId
      && (forall id :: id in rows ==> id < nextId)
      && TableInvariant(rows)
    }

    /** An empty table. */
    constructor (hash: Hasher)
      ensures Valid()
      ensures this.hash == hash && rows == map[] && nextId == 1
    {
      this.hash := hash;
      rows := map[];
      nextId := 1;
    }

    /** `gerar_hash_senha`: a digest of 64 lowercase hex digits, the same for the same input. */
    function HashPassword(password: string): (h: string)
      ensures IsHexDigest(h)
    {
      hash(password)
    }

    /** `contar_usuarios`: the number of rows. */
    function Count(): (n: nat)
      reads this
      ensures n == |rows.Keys|
    {
      |rows|
    }

    /** `criar_usuario`. */
    method CreateUser(name: string, email: string, password: string, role: string, now: Timestamp)
      returns (r: CreateResult)
      requires Valid()
      modifies this
      ensures Valid()
      ensures r == CreateOutcome(old(rows), name, email, password, role)
      ensures r == Created ==>
        && old(nextId) !in old(rows)
        && rows == old(rows)[old(nextId) := NewAccount(name, email, password, role, hash, now)]
        && nextId == old(nextId) + 1
        && Count() == old(Count()) + 1
      ensures r != Created ==> rows == old(rows) && nextId == old(nextId)
    {
      var invalid := CreateValidation(name, email, password, role);
      if invalid.Some? {
        return Invalid(invalid.value);
      }
      var existing := FindByEmail(rows, email);
      if existing.Some? {
        return CreateResult.EmailTaken;
      }
      CreateKeepsInvariant(rows, nextId, name, email, password, role, hash, now);
      var passwordHash := HashPassword(password);
      rows := rows[nextId := Account(Strip(name), Lower(Strip(email)), passwordHash, role, now, now)];
      nextId := nextId + 1;
      r := Created;
    }

    /**
      `atualizar_usuario`. The row is written once, at the end, with the
      supplied fields and the update time; every failure returns first.
    */
    method UpdateUser(id: int, name: Option<string>, email: Option<string>, password: Option<string>,
                      role: Option<string>, now: Timestamp)
      returns (r: UpdateResult)
      requires Valid()
      modifies this
      ensures Valid()
      ensures r == UpdateOutcome(old(rows), id, name, email, password, role)
      ensures r == Updated ==>
        rows == old(rows)[id := UpdatedAccount(old(rows)[id], name, email, password, role, hash, now)]
      ensures r != Updated ==> rows == old(rows)
      ensures nextId == old(nextId)
    {
      if id <= 0 {
        return InvalidId;
      }
      var current := FindById(rows, id);
      if current.None? {
        return NotFound;
      }
      var failure, changes := AssembleChanges(rows, hash, id, name, email, password, role);
      if failure.Some? {
        return failure.value;
      }
      if changes == [] {
        return NothingToUpdate;
      }
      ApplyRequestedChanges(rows[id], name, email, password, role, hash, now);
      changes := changes + [SetUpdatedAt(now)];
      UpdateKeepsInvariant(rows, id, name, email, password, role, hash, now);
      rows := rows[id := ApplyChanges(rows[id], changes)];
      r := Updated;
    }

    /** `deletar_usuario`: afterwards no row has the id. */
    method DeleteUser(id: int) returns (deleted: bool)
      requires Valid()
      modifies this
      ensures Valid()
      ensures deleted <==> 0 < id && id in old(rows)
      ensures deleted ==> rows == old(rows) - {id} && Count() == old(Count()) - 1
      ensures !deleted ==> rows == old(rows)
      ensures nextId == old(nextId)
      ensures FindById(rows, id) == None
    {
      if id <= 0 {
        return false;
      }
      var user := FindById(rows, id);
      if user.None? {
        return false;
      }
      rows := rows - {id};
      deleted := true;
    }

    /**
      `verificar_login`: the row whose email matches, when the digest of the
      password equals its stored digest; the hash is dropped from the result.
    */
    method VerifyLogin(email: string, password: string) returns (user: Option<PublicUser>)
      requires Valid()
      ensures user.Some? <==> LoginAccepts(rows, hash, email, password)
      ensures user.Some? ==>
        && user.value.id in rows
        && user.value == Public(user.value.id, rows[user.value.id])
        && EmailMatches(rows[user.value.id], email)
        && rows[user.value.id].passwordHash == hash(password)
    {
      if email == [] || password == [] {
        return None;
      }
      if IsBlank(email) {
        BlankMatchesNothing(rows, email);
      }
      var found := FindByEmail(rows, email);
      if found.None? {
        return None;
      }
      var passwordHash := HashPassword(password);
      if passwordHash == found.value.account.passwordHash {
        user := Some(Public(found.value.id, found.value.account));
      } else {
        user := None;
      }
    }

    /**
      `ORDER BY nome` over the given rows: each id once, names non-decreasing.
      The rows are visited in id order, as a scan of the table would, and
      each is placed among those already ordered.
    */
    method OrderByName(ids: set<int>) returns (s: seq<int>)
      requires Valid() && ids <= rows.Keys
      ensures |s| == |ids|
      ensures forall i :: 0 <= i < |s| ==> s[i] in ids
      ensures forall id :: id in ids ==> id in s
      ensures Distinct(s)
      ensures SortedByName(rows, s)
    {
      s := [];
      for k := 1 to nextId
        invariant forall x :: x in s <==> x in ids && x < k
        invariant forall i :: 0 <= i < |s| ==> s[i] in rows
        invariant Distinct(s)
        invariant SortedByName(rows, s)
      {
        if k in ids {
          s := InsertByName(rows, s, k);
        }
      }
      DistinctLength(s, ids);
    }

    /** The result rows of a listing, as dictionaries without the hash. */
    method ToPublic(ids: seq<int>) returns (users: seq<PublicUser>)
      requires forall i :: 0 <= i < |ids| ==> ids[i] in rows
      ensures |users| == |ids|
      ensures forall i :: 0 <= i < |ids| ==> users[i] == Public(ids[i], rows[ids[i]])
    {
      users := [];
      for i := 0 to |ids|
        invariant |users| == i
        invariant forall k :: 0 <= k < i ==> users[k] == Public(ids[k], rows[ids[k]])
      {
        users := users + [Public(ids[i], rows[ids[i]])];
      }
    }

    /** `listar_usuarios`: every row once, ordered by name, without the hash. */
    method ListUsers() returns (users: seq<PublicUser>)
      requires Valid()
      ensures |users| == |rows|
      ensures forall i :: 0 <= i < |users| ==>
        users[i].id in rows && users[i] == Public(users[i].id, rows[users[i].id])
      ensures forall id :: id in rows ==> exists i :: 0 <= i < |users| && users[i].id == id
      ensures forall i, j :: 0 <= i < j < |users| ==> users[i].id != users[j].id
      ensures UsersSortedByName(users)
    {
      var ids := OrderByName(rows.Keys);
      users := ToPublic(ids);
      forall id | id in rows ensures exists i :: 0 <= i < |users| && users[i].id == id {
        assert id in ids;
        var i :| 0 <= i < |ids| && ids[i] == id;
        assert users[i].id == id;
      }
    }

    /**
      `listar_usuarios_por_perfil`: nothing for a role other than `admin` and
      `operador`; otherwise exactly the rows with that role, once each,
      ordered by name, without the hash.
    */
    method ListByRole(role: string) returns (users: seq<PublicUser>)
      requires Valid()
      ensures !ValidRole(role) ==> users == []
      ensures forall i :: 0 <= i < |users| ==>
        users[i].id in rows && rows[users[i].id].role == role && users[i] == Public(users[i].id, rows[users[i].id])
      ensures ValidRole(role) ==>
        forall id :: id in rows && rows[id].role == role ==> exists i :: 0 <= i < |users| && users[i].id == id
      ensures forall i, j :: 0 <= i < j < |users| ==> users[i].id != users[j].id
      ensures UsersSortedByName(users)
    {
      if !ValidRole(role) {
        return [];
      }
      var ids := OrderByName(set id | id in rows && rows[id].role == role);
      users := ToPublic(ids);
      forall id | id in rows && rows[id].role == role ensures exists i :: 0 <= i < |users| && users[i].id == id {
        assert id in ids;
        var i :| 0 <= i < |ids| && ids[i] == id;
        assert users[i].id == id;
      }
    }
  }

  /**
    The checks and the `SET` clause of `atualizar_usuario` for an existing
    row: each field given and not blank is checked and, if it passes,
    appended to the change list in its stored form. A failing check is
    the outcome `atualizar_usuario` reports; otherwise the list is the
    requested one, empty exactly when there is nothing to update.
  */
  method AssembleChanges(rows: Table, hash: Hasher, id: int, name: Option<string>, email: Option<string>,
                         password: Option<string>, role: Option<string>)
    returns (failure: Option<UpdateResult>, changes: seq<Change>)
    requires EmailsUnique(rows) && 0 < id && id in rows
    ensures failure.Some? ==> failure.value == UpdateOutcome(rows, id, name, email, password, role)
    ensures failure.Some? ==> failure.value != Updated && failure.value != NothingToUpdate
    ensures failure.None? ==> changes == RequestedChanges(name, email, password, role, hash)
    ensures failure.None? ==> (changes == [] <==> UpdateOutcome(rows, id, name, email, password, role) == NothingToUpdate)
    ensures failure.None? ==> (changes != [] <==> UpdateOutcome(rows, id, name, email, password, role) == Updated)
  {
    changes := [];
    if Supplied(name) {
      changes := changes + [SetName(Strip(name.value))];
    }
    assert changes == NameChange(name);
    if Supplied(email) {
      if Lower(email.value) != Lower(rows[id].email) {
        var taken := FindByEmail(rows, email.value);
        if taken.Some? {
          return Some(UpdateResult.EmailTaken), changes;
        }
      }
      if '@' !in email.value {
        return Some(UpdateResult.EmailMalformed), changes;
      }
      changes := changes + [SetEmail(Lower(Strip(email.value)))];
    }
    assert changes == NameChange(name) + EmailChange(email);
    if Supplied(password) {
      if |password.value| < 4 {
        return Some(UpdateResult.PasswordTooShort), changes;
      }
      var passwordHash := hash(password.value);
      changes := changes + [SetPasswordHash(passwordHash)];
    }
    assert changes == NameChange(name) + EmailChange(email) + PasswordChange(password, hash);
    if Supplied(role) {
      if !ValidRole(role.value) {
        return Some(UpdateResult.RoleInvalid), changes;
      }
      changes := changes + [SetRole(role.value)];
    }
    failure := None;
  }
}
