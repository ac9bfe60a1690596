/**
  A worked run of the store: the same email submitted twice, the second time
  in another letter case and with a leading space.
*/
module Scenarios {
  import opened Wrappers
  import opened Text
  import opened Accounts
  import opened Store

  /**
    The second `criar_usuario` with an email that differs only in case and
    padding reports a duplicate, and `contar_usuarios` is 1 afterwards.
  */
  method DuplicateEmailScenario(hash: Hasher) returns (first: CreateResult, second: CreateResult, count: nat)
    ensures first == Created && second == CreateResult.EmailTaken && count == 1
  {
    var store := new UserStore(hash);
    var email := "ana@b.co";
    var padded := " ANA@B.co";
    StrippedLiterals();
    assert CreateValidation("Ana", email, "senha123", "admin") == None;
    first := store.CreateUser("Ana", email, "senha123", "admin", 0);
    assert EmailMatches(store.rows[1], padded) by { PaddedEmailMatches(); }
    assert CreateValidation("Outra", padded, "outra123", "operador") == None;
    second := store.CreateUser("Outra", padded, "outra123", "operador", 1);
    count := store.Count();
  }

  /** The literals of the scenario, trimmed. */
  lemma StrippedLiterals()
    ensures Strip("Ana") == "Ana" && Strip("Outra") == "Outra"
    ensures Strip("ana@b.co") == "ana@b.co"
    ensures '@' in "ana@b.co" && '@' in " ANA@B.co"
    ensures Strip(" ANA@B.co") == "ANA@B.co"
  {
    StrippedIsFixed("Ana");
    StrippedIsFixed("Outra");
    StrippedIsFixed("ana@b.co");
    assert "ana@b.co"[3] == '@';
    assert " ANA@B.co"[4] == '@';
    assert " ANA@B.co" == [' '] + "ANA@B.co";
    StripOneSpace("ANA@B.co");
  }

  /** The padded, upper-case spelling matches the stored email. */
  lemma PaddedEmailMatches()
    ensures Lower(Lower(Strip("ana@b.co"))) == Lower(Strip(" ANA@B.co"))
  {
    StrippedLiterals();
    assert Lower("ana@b.co") == "ana@b.co";
    assert Lower("ANA@B.co") == "ana@b.co";
  }
}
