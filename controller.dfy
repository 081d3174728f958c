/**
 * The security controller (`App\Controller\SecurityController`): sign-up
 * (`register`) and the token-guarded JSON API on `/api/user` (GET, POST,
 * PUT, DELETE) over the user store.
 *
 * Every API handler first asks whether some stored user owns the `token`
 * header; if not, it answers "invalid token" and does nothing else. The
 * guard never looks at the target id: any valid token reaches every user.
 */
module Controller {
  import opened Wrappers
  import Tokens
  import Entity
  import Store
  import Validation
  import Forms

  /** The JSON objects the API answers with. */
  datatype Response =
    | InvalidToken                                                        // {"error": "invalid token"}
    | InvalidUser                                                         // {"error": "invalid user"}
    | Fetched(id: int, username: string, password: string, token: string) // the whole record
    | Created(id: int)                                                    // {"created id": id}
    | Edited(id: int)                                                     // {"edited user": id}
    | Deleted(id: int)                                                    // {"deleted id": id}
    | ValidationErrors(errors: map<string, string>)                       // property path -> message
    | StoreRejected                                                       // flush threw: unique index

  /** What `register` does: redirect a signed-in user, create the account, or show the form. */
  datatype RegisterResult =
    | AlreadyAuthenticated
    | Registered(id: int)
    | FormShown(violations: seq<Validation.Violation>)

  /** The PUT body. */
  datatype EditRequest = EditRequest(id: int, username: string, password: string)

  /** The row a valid form submission stores. */
  function CreatedRow(data: Forms.UserForm, encode: string -> string, draws: seq<int>): Store.Row
    requires Tokens.ValidDraws(draws)
  {
    Store.Row(Forms.Trim(data.username), encode(data.password), Tokens.TokenOf(draws))
  }

  /** No later violation has the same path as violation i. */
  predicate LastForPath(errors: seq<Validation.Violation>, i: int)
    requires 0 <= i < |errors|
  {
    forall j :: i < j < |errors| ==> errors[j].path != errors[i].path
  }

  /** `$parsed[path] = message` for each violation in turn. */
  function ErrorMap(errors: seq<Validation.Violation>): map<string, string>
  {
    if errors == [] then map[]
    else ErrorMap(errors[..|errors| - 1])[errors[|errors| - 1].path := errors[|errors| - 1].message]
  }

  /** The error map has one entry per reported path and no other. */
  lemma {:induction false} ErrorMapKeys(errors: seq<Validation.Violation>, p: string)
    ensures p in ErrorMap(errors) <==> Validation.Reports(errors, p)
  {
    if errors != [] {
      var init := errors[..|errors| - 1];
      ErrorMapKeys(init, p);
      if Validation.Reports(errors, p) && p != errors[|errors| - 1].path {
        var i :| 0 <= i < |errors| && errors[i].path == p;
        assert init[i] == errors[i];
      }
      if Validation.Reports(init, p) {
        var i :| 0 <= i < |init| && init[i].path == p;
        assert errors[i] == init[i];
      }
    }
  }

  /** A later violation with the same path overwrites an earlier one. */
  lemma {:induction false} ErrorMapLastWins(errors: seq<Validation.Violation>, i: int)
    requires 0 <= i < |errors| && LastForPath(errors, i)
    ensures errors[i].path in ErrorMap(errors) && ErrorMap(errors)[errors[i].path] == errors[i].message
  {
    if i < |errors| - 1 {
      var init := errors[..|errors| - 1];
      assert init[i] == errors[i];
      assert LastForPath(init, i);
      ErrorMapLastWins(init, i);
    }
  }

  /** The `foreach` over the form's errors that fills `$parsed`. */
  method ParseErrors(errors: seq<Validation.Violation>) returns (parsed: map<string, string>)
    ensures parsed == ErrorMap(errors)
  {
    parsed := map[];
    for i := 0 to |errors|
      invariant parsed == ErrorMap(errors[..i])
    {
      assert errors[..i + 1][..i] == errors[..i];
      parsed := parsed[errors[i].path := errors[i].message];
    }
    assert errors[..|errors|] == errors;
  }

  /** The error map of a rejected creation names exactly the failing fields. */
  lemma CreationErrorFields(rows: map<int, Store.Row>, username: string, password: string)
    ensures var m := ErrorMap(Validation.Violations(rows, username, password));
      && (Validation.UsernamePath in m <==> |username| < Validation.UsernameMinLength || Store.UsernameTaken(rows, username))
      && (Validation.PasswordPath in m <==> |password| < Validation.PasswordMinLength)
      && (forall p :: p in m ==> p == Validation.UsernamePath || p == Validation.PasswordPath)
  {
    var vs := Validation.Violations(rows, username, password);
    ErrorMapKeys(vs, Validation.UsernamePath);
    ErrorMapKeys(vs, Validation.PasswordPath);
    forall p | p in ErrorMap(vs) ensures p == Validation.UsernamePath || p == Validation.PasswordPath {
      ErrorMapKeys(vs, p);
      var i :| 0 <= i < |vs| && vs[i].path == p;
    }
  }

  /**
   * The messages in that map: a username both too short and taken shows the
   * length message, which the validator reports after the uniqueness one.
   */
  lemma CreationErrorMessages(rows: map<int, Store.Row>, username: string, password: string)
    ensures var m := ErrorMap(Validation.Violations(rows, username, password));
      && (|username| < Validation.UsernameMinLength ==>
            Validation.UsernamePath in m && m[Validation.UsernamePath] == Validation.UsernameTooShortMessage)
      && (|username| >= Validation.UsernameMinLength && Store.UsernameTaken(rows, username) ==>
            Validation.UsernamePath in m && m[Validation.UsernamePath] == Validation.DuplicateMessage)
      && (|password| < Validation.PasswordMinLength ==>
            Validation.PasswordPath in m && m[Validation.PasswordPath] == Validation.PasswordTooShortMessage)
  {
    var vs := Validation.Violations(rows, username, password);
    if |username| < Validation.UsernameMinLength {
      var i := if Store.UsernameTaken(rows, username) then 1 else 0;
      assert vs[i] == Validation.Violation(Validation.UsernamePath, Validation.UsernameTooShortMessage);
      ErrorMapLastWins(vs, i);
    } else if Store.UsernameTaken(rows, username) {
      assert vs[0] == Validation.Violation(Validation.UsernamePath, Validation.DuplicateMessage);
      ErrorMapLastWins(vs, 0);
    }
    if |password| < Validation.PasswordMinLength {
      assert vs[|vs| - 1] == Validation.Violation(Validation.PasswordPath, Validation.PasswordTooShortMessage);
      ErrorMapLastWins(vs, |vs| - 1);
    }
  }

  class SecurityController {
    /** The user table, keyed by id. */
    var rows: map<int, Store.Row>
    /** The id the table's auto-increment hands out next. */
    var nextId: int

    /**
     * Ids are below the counter, so never reused; usernames are unique; every
     * stored token came from the generator.
     */
    ghost predicate Valid()
      reads this
    {
      && nextId >= 1
      && (forall k :: k in rows ==> 1 <= k < nextId)
      && Store.UniqueUsernames(rows)
      && (forall k :: k in rows ==> Tokens.ValidToken(rows[k].token))
    }

    constructor ()
      ensures Valid() && rows == map[] && nextId == 1
    {
      rows, nextId := map[], 1;
    }

    /** Doctrine's hydration of the entity stored under `id`. */
    method Load(id: int) returns (user: Entity.User)
      requires id in rows
      ensures fresh(user)
      ensures user.id == Some(id) && user.username == Some(rows[id].username)
      ensures user.password == Some(rows[id].password) && user.token == Some(rows[id].token)
      ensures user.roles == []
    {
      user := new Entity.User();
      user.id, user.username := Some(id), Some(rows[id].username);
      user.password, user.token := Some(rows[id].password), Some(rows[id].token);
    }

    /** `persist` and `flush` of a new user: the next id becomes its id. */
    method Persist(user: Entity.User)
      requires Valid()
      requires user.id == None && user.username.Some? && user.password.Some? && user.token.Some?
      // the UniqueEntity check has already run and passed
      requires !Store.UsernameTaken(rows, user.username.value)
      requires Tokens.ValidToken(user.token.value)
      modifies this, user
      ensures Valid()
      ensures user.id == Some(old(nextId))
      ensures user.username == old(user.username) && user.password == old(user.password) && user.token == old(user.token)
      ensures user.roles == old(user.roles)
      ensures old(nextId) !in old(rows)
      ensures rows == old(rows)[old(nextId) := Store.Row(user.username.value, user.password.value, user.token.value)]
      ensures nextId == old(nextId) + 1
    {
      rows := rows[nextId := Store.Row(user.username.value, user.password.value, user.token.value)];
      user.id := Some(nextId);
      nextId := nextId + 1;
    }

    /**
     * `flush` of an edited user. The unique index on the username column
     * rejects the update when another user has the name; nothing changes then.
     */
    method FlushEdit(user: Entity.User) returns (ok: bool)
      requires Valid()
      requires user.id.Some? && user.id.value in rows && user.username.Some? && user.password.Some?
      requires user.token == Some(rows[user.id.value].token)
      modifies this
      ensures Valid() && nextId == old(nextId)
      ensures ok == !Store.TakenByOther(old(rows), user.id.value, user.username.value)
      ensures ok ==> rows == old(rows)[user.id.value := Store.Row(user.username.value, user.password.value, user.token.value)]
      ensures !ok ==> rows == old(rows)
    {
      var id := user.id.value;
      if Store.TakenByOther(rows, id, user.username.value) {
        ok := false;
      } else {
        rows := rows[id := Store.Row(user.username.value, user.password.value, user.token.value)];
        ok := true;
      }
    }

    /**
     * The create path shared by POST and `register`: build and submit the
     * form; if it is valid, persist the new user.
     */
    method CreateUser(data: Forms.UserForm, encode: string -> string, draws: seq<int>)
      returns (created: Option<int>, violations: seq<Validation.Violation>)
      requires Valid() && Tokens.ValidDraws(draws)
      modifies this
      ensures Valid()
      ensures violations == Validation.Violations(old(rows), Forms.Trim(data.username), data.password)
      ensures violations == [] ==>
        && created == Some(old(nextId))
        && old(nextId) !in old(rows)
        && rows == old(rows)[old(nextId) := CreatedRow(data, encode, draws)]
        && nextId == old(nextId) + 1
      ensures violations != [] ==> created == None && rows == old(rows) && nextId == old(nextId)
    {
      var user;
      user, violations := Forms.Submit(rows, data, encode, draws);
      if violations == [] {
        Persist(user);
        created := user.GetId();
      } else {
        created := None;
      }
    }

    /** `register`, the persist-if-valid path without a token check. */
    method Register(authenticated: bool, submission: Option<Forms.UserForm>, encode: string -> string, draws: seq<int>)
      returns (r: RegisterResult)
      requires Valid() && Tokens.ValidDraws(draws)
      modifies this
      ensures Valid()
      ensures authenticated ==> r == AlreadyAuthenticated && rows == old(rows) && nextId == old(nextId)
      ensures !authenticated && submission.None? ==> r == FormShown([]) && rows == old(rows) && nextId == old(nextId)
      ensures !authenticated && submission.Some? ==>
        var data := submission.value;
        if Validation.Acceptable(old(rows), Forms.Trim(data.username), data.password) then
          && r == Registered(old(nextId))
          && old(nextId) !in old(rows)
          && rows == old(rows)[old(nextId) := CreatedRow(data, encode, draws)]
          && nextId == old(nextId) + 1
        else
          r == FormShown(Validation.Violations(old(rows), Forms.Trim(data.username), data.password))
          && rows == old(rows) && nextId == old(nextId)
    {
      if authenticated {
        return AlreadyAuthenticated;
      }
      if submission.None? {
        return FormShown([]);
      }
      var created, violations := CreateUser(submission.value, encode, draws);
      if created.Some? {
        r := Registered(created.value);
      } else {
        r := FormShown(violations);
      }
    }

    /** GET /api/user: read one record; never changes the store. */
    method ApiUserGet(token: Option<string>, id: int) returns (r: Response)
      ensures r == InvalidToken <==> !Store.Authorized(rows, token)
      ensures r == InvalidUser <==> Store.Authorized(rows, token) && id !in rows
      ensures Store.Authorized(rows, token) && id in rows ==>
        r == Fetched(id, rows[id].username, rows[id].password, rows[id].token)
    {
      if !Store.Authorized(rows, token) {
        return InvalidToken;
      }
      if !Store.Exists(rows, id) {
        return InvalidUser;
      }
      var user := Load(id);
      r := Fetched(user.GetId().value, user.GetUsername().value, user.GetPassword().value, user.GetToken().value);
    }

    /** POST /api/user: create a user from the body, or report the violations. */
    method ApiUserPost(token: Option<string>, data: Forms.UserForm, encode: string -> string, draws: seq<int>)
      returns (r: Response)
      requires Valid() && Tokens.ValidDraws(draws)
      modifies this
      ensures Valid()
      ensures !Store.Authorized(old(rows), token) ==> r == InvalidToken && rows == old(rows) && nextId == old(nextId)
      ensures Store.Authorized(old(rows), token) ==>
        if Validation.Acceptable(old(rows), Forms.Trim(data.username), data.password) then
          && r == Created(old(nextId))
          && old(nextId) !in old(rows)
          && rows == old(rows)[old(nextId) := CreatedRow(data, encode, draws)]
          && nextId == old(nextId) + 1
        else
          r == ValidationErrors(ErrorMap(Validation.Violations(old(rows), Forms.Trim(data.username), data.password)))
          && rows == old(rows) && nextId == old(nextId)
    {
      if !Store.Authorized(rows, token) {
        return InvalidToken;
      }
      var created, violations := CreateUser(data, encode, draws);
      if created.Some? {
        r := Created(created.value);
      } else {
        var parsed := ParseErrors(violations);
        r := ValidationErrors(parsed);
      }
    }

    /**
     * PUT /api/user: overwrite the target's username and password hash, with
     * no length or uniqueness validation; id and token stay.
     */
    method ApiUserPut(token: Option<string>, req: EditRequest, encode: string -> string) returns (r: Response)
      requires Valid()
      modifies this
      ensures Valid() && nextId == old(nextId)
      ensures !Store.Authorized(old(rows), token) ==> r == InvalidToken && rows == old(rows)
      ensures Store.Authorized(old(rows), token) && req.id !in old(rows) ==> r == InvalidUser && rows == old(rows)
      ensures Store.Authorized(old(rows), token) && req.id in old(rows) ==>
        if Store.TakenByOther(old(rows), req.id, req.username) then
          r == StoreRejected && rows == old(rows)
        else
          r == Edited(req.id)
          && rows == old(rows)[req.id := Store.Row(req.username, encode(req.password), old(rows)[req.id].token)]
    {
      if !Store.Authorized(rows, token) {
        return InvalidToken;
      }
      if !Store.Exists(rows, req.id) {
        return InvalidUser;
      }
      var user := Load(req.id);
      var _ := user.SetUsername(req.username);
      var _ := user.SetPassword(encode(req.password));
      var ok := FlushEdit(user);
      r := if ok then Edited(req.id) else StoreRejected;
    }

    /** DELETE /api/user: remove the target and answer with the requested id. */
    method ApiUserDelete(token: Option<string>, id: int) returns (r: Response)
      requires Valid()
      modifies this
      ensures Valid() && nextId == old(nextId)
      ensures !Store.Authorized(old(rows), token) ==> r == InvalidToken && rows == old(rows)
      ensures Store.Authorized(old(rows), token) && id !in old(rows) ==> r == InvalidUser && rows == old(rows)
      ensures Store.Authorized(old(rows), token) && id in old(rows) ==> r == Deleted(id) && rows == old(rows) - {id}
    {
      if !Store.Authorized(rows, token) {
        return InvalidToken;
      }
      if !Store.Exists(rows, id) {
        return InvalidUser;
      }
      var user := Load(id);
      rows := rows - {user.GetId().value};
      r := Deleted(id);
    }
  }

  /**
   * Sign up an admin and alice on a fresh store, then try to sign up alice
   * again: the second attempt fails on the username and stores nothing.
   */
  method SignUpTwice(encode: string -> string, adminDraws: seq<int>, aliceDraws: seq<int>)
    returns (c: SecurityController, admin: RegisterResult, alice: RegisterResult, again: RegisterResult)
    requires Tokens.ValidDraws(adminDraws) && Tokens.ValidDraws(aliceDraws)
    ensures fresh(c) && c.Valid()
    ensures admin == Registered(1) && alice == Registered(2)
    ensures again == FormShown([Validation.Violation(Validation.UsernamePath, Validation.DuplicateMessage)])
    ensures c.rows == map[1 := Store.Row("admin", encode("password"), Tokens.TokenOf(adminDraws)),
                          2 := Store.Row("alice", encode("secret1"), Tokens.TokenOf(aliceDraws))]
  {
    Forms.TrimUnpadded("admin");
    Forms.TrimUnpadded("alice");
    var adminRow := CreatedRow(Forms.UserForm("admin", "password"), encode, adminDraws);
    var aliceRow := CreatedRow(Forms.UserForm("alice", "secret1"), encode, aliceDraws);
    c := new SecurityController();
    admin := c.Register(false, Some(Forms.UserForm("admin", "password")), encode, adminDraws);
    assert c.rows == map[1 := adminRow] && c.nextId == 2;
    alice := c.Register(false, Some(Forms.UserForm("alice", "secret1")), encode, aliceDraws);
    assert c.rows == map[1 := adminRow, 2 := aliceRow] && c.nextId == 3;
    assert 2 in c.rows && c.rows[2].username == "alice";
    assert Store.UsernameTaken(c.rows, "alice");
    again := c.Register(false, Some(Forms.UserForm("alice", "another1")), encode, aliceDraws);
  }

  /**
   * After the two sign-ups, alice's token reads her record, edits it, and
   * reads the new username and hash; the token stays hers.
   */
  method SignUpReadEdit(encode: string -> string, adminDraws: seq<int>, aliceDraws: seq<int>)
    returns (fetched: Response, edited: Response, refetched: Response)
    requires Tokens.ValidDraws(adminDraws) && Tokens.ValidDraws(aliceDraws)
    ensures fetched == Fetched(2, "alice", encode("secret1"), Tokens.TokenOf(aliceDraws))
    ensures edited == Edited(2)
    ensures refetched == Fetched(2, "alice2", encode("secret2"), Tokens.TokenOf(aliceDraws))
  {
    var aliceToken := Tokens.TokenOf(aliceDraws);
    var c, _, _, _ := SignUpTwice(encode, adminDraws, aliceDraws);
    assert 2 in c.rows && c.rows[2].token == aliceToken;
    fetched := c.ApiUserGet(Some(aliceToken), 2);
    assert c.rows[1].username == "admin";
    edited := c.ApiUserPut(Some(aliceToken), EditRequest(2, "alice2", "secret2"), encode);
    assert 2 in c.rows && c.rows[2].token == aliceToken;
    refetched := c.ApiUserGet(Some(aliceToken), 2);
  }

  /**
   * After the two sign-ups, alice's token deletes her record. Her token then
   * matches no user, so a read with it fails the token guard; a read with the
   * admin's token finds no user.
   */
  method SignUpDeleteRead(encode: string -> string, adminDraws: seq<int>, aliceDraws: seq<int>)
    returns (deleted: Response, goneForOwner: Response, goneForAdmin: Response)
    requires Tokens.ValidDraws(adminDraws) && Tokens.ValidDraws(aliceDraws) && adminDraws != aliceDraws
    ensures deleted == Deleted(2)
    ensures goneForOwner == InvalidToken
    ensures goneForAdmin == InvalidUser
  {
    Tokens.DistinctDrawsDistinctTokens(adminDraws, aliceDraws);
    var adminToken, aliceToken := Tokens.TokenOf(adminDraws), Tokens.TokenOf(aliceDraws);
    var c, _, _, _ := SignUpTwice(encode, adminDraws, aliceDraws);
    assert 2 in c.rows && c.rows[2].token == aliceToken;
    deleted := c.ApiUserDelete(Some(aliceToken), 2);
    assert c.rows.Keys == {1} && c.rows[1].token == adminToken;
    goneForOwner := c.ApiUserGet(Some(aliceToken), 2);
    goneForAdmin := c.ApiUserGet(Some(adminToken), 2);
  }
}
