/**
 * The constraints on the user entity: `UniqueEntity(fields={"Username"})`
 * on the class, `Length(min=4)` on Username and `Length(min=6)` on Password.
 * Violations are listed class constraint first, then the properties in
 * declaration order, each with the property path the validator reports.
 */
module Validation {
  import Store

  type Row = Store.Row

  datatype Violation = Violation(path: string, message: string)

  const UsernamePath: string := "data.Username"
  const PasswordPath: string := "data.Password"

  const UsernameMinLength: nat := 4
  const PasswordMinLength: nat := 6

  const DuplicateMessage: string := "Konto o podanej nazwie już istnieje"
  const UsernameTooShortMessage: string := "This value is too short. It should have 4 characters or more."
  const PasswordTooShortMessage: string := "This value is too short. It should have 6 characters or more."

  /** A new user with these credentials passes every constraint. */
  predicate Acceptable(rows: map<int, Row>, username: string, password: string)
  {
    |username| >= UsernameMinLength && |password| >= PasswordMinLength && !Store.UsernameTaken(rows, username)
  }

  predicate Reports(vs: seq<Violation>, path: string)
  {
    exists i :: 0 <= i < |vs| && vs[i].path == path
  }

  /** The violations of a new user with these credentials against the stored rows. */
  function Violations(rows: map<int, Row>, username: string, password: string): (vs: seq<Violation>)
    ensures vs == [] <==> Acceptable(rows, username, password)
    ensures Reports(vs, UsernamePath) <==> |username| < UsernameMinLength || Store.UsernameTaken(rows, username)
    ensures Reports(vs, PasswordPath) <==> |password| < PasswordMinLength
    ensures forall i :: 0 <= i < |vs| ==> vs[i].path == UsernamePath || vs[i].path == PasswordPath
    ensures |vs| <= 3
  {
    var unique := if Store.UsernameTaken(rows, username) then [Violation(UsernamePath, DuplicateMessage)] else [];
    var name := if |username| < UsernameMinLength then [Violation(UsernamePath, UsernameTooShortMessage)] else [];
    var pass := if |password| < PasswordMinLength then [Violation(PasswordPath, PasswordTooShortMessage)] else [];
    var vs := unique + name + pass;
    assert Reports(vs, PasswordPath) ==> |password| < PasswordMinLength by {
      if Reports(vs, PasswordPath) {
        var i :| 0 <= i < |vs| && vs[i].path == PasswordPath;
      }
    }
    assert |password| < PasswordMinLength ==> vs[|vs| - 1].path == PasswordPath;
    assert Reports(vs, UsernamePath) ==> |username| < UsernameMinLength || Store.UsernameTaken(rows, username) by {
      if Reports(vs, UsernamePath) {
        var i :| 0 <= i < |vs| && vs[i].path == UsernamePath;
      }
    }
    assert |username| < UsernameMinLength || Store.UsernameTaken(rows, username) ==> vs[0].path == UsernamePath;
    vs
  }
}
