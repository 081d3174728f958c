/**
 * The user entity (`App\Entity\User`): four mapped fields, a roles list, and
 * the `Serializable` pair used to keep the user in the session. Every field
 * starts out null; `id` is filled in by the store when the user is first
 * persisted and has no setter.
 */
module Entity {
  import opened Wrappers
  import Serialization

  /** The role every user has. */
  const RoleUser: string := "ROLE_USER"

  predicate NoDuplicates(s: seq<string>)
  {
    forall i, j :: 0 <= i < j < |s| ==> s[i] != s[j]
  }

  /** x occurs in s before the first occurrence of y (or y does not occur). */
  predicate Before(s: seq<string>, x: string, y: string)
  {
    exists p :: 0 <= p < |s| && s[p] == x && y !in s[..p]
  }

  /**
   * PHP's `array_unique`: each value once, at the place of its first
   * occurrence.
   */
  function Unique(s: seq<string>): (r: seq<string>)
    ensures NoDuplicates(r)
    ensures forall x :: x in r <==> x in s
    ensures |r| <= |s|
    ensures NoDuplicates(s) ==> r == s
  {
    if s == [] then []
    else
      var u := Unique(s[..|s| - 1]);
      var last := s[|s| - 1];
      assert s == s[..|s| - 1] + [last];
      if last in u then u else u + [last]
  }

  /** `array_unique` keeps the values in the order of their first occurrences. */
  lemma {:induction false} UniqueKeepsFirstOrder(s: seq<string>)
    ensures forall i, j :: 0 <= i < j < |Unique(s)| ==> Before(s, Unique(s)[i], Unique(s)[j])
  {
    if s != [] {
      var init, last := s[..|s| - 1], s[|s| - 1];
      var u := Unique(init);
      UniqueKeepsFirstOrder(init);
      var r := Unique(s);
      forall i, j | 0 <= i < j < |r| ensures Before(s, r[i], r[j]) {
        assert r[i] == u[i];
        if j < |u| {
          assert r[j] == u[j] && Before(init, u[i], u[j]);
          var p :| 0 <= p < |init| && init[p] == u[i] && u[j] !in init[..p];
          assert s[..p] == init[..p];
        } else {
          assert r[j] == last && last !in init;
          assert u[i] in init;
          var p :| 0 <= p < |init| && init[p] == u[i];
          assert s[..p] == init[..p];
        }
      }
    }
  }

  function IdScalar(id: Option<int>): Serialization.Scalar
  {
    match id
    case None => Serialization.Null
    case Some(i) => Serialization.Int(i)
  }

  function StringScalar(s: Option<string>): Serialization.Scalar
  {
    match s
    case None => Serialization.Null
    case Some(str) => Serialization.Str(str)
  }

  /** A value that fits the id slot: null or an integer. */
  predicate IsIdScalar(v: Serialization.Scalar) { v.Null? || v.Int? }

  /** A value that fits a string slot: null or a string. */
  predicate IsStringScalar(v: Serialization.Scalar) { v.Null? || v.Str? }

  function ScalarId(v: Serialization.Scalar): (id: Option<int>)
    requires IsIdScalar(v)
    ensures IdScalar(id) == v
  {
    if v.Int? then Some(v.i) else None
  }

  function ScalarString(v: Serialization.Scalar): (s: Option<string>)
    requires IsStringScalar(v)
    ensures StringScalar(s) == v
  {
    if v.Str? then Some(v.s) else None
  }

  /**
   * The four values `list($id, $Username, $Password, $Token) = unserialize(s)`
   * assigns: the list's entries 0..3, null for an entry that is missing, and
   * null for all four when `s` does not hold a list.
   */
  function Listed(s: string): (vs: seq<Serialization.Scalar>)
    ensures |vs| == 4
    ensures Serialization.Unserialize(s).None? ==> forall i :: 0 <= i < 4 ==> vs[i] == Serialization.Null
    ensures var xs := Serialization.Unserialize(s);
      xs.Some? && |xs.value| >= 4 ==> vs == xs.value[..4]
  {
    match Serialization.Unserialize(s)
    case None => [Serialization.Null, Serialization.Null, Serialization.Null, Serialization.Null]
    case Some(xs) => seq(4, i requires 0 <= i < 4 => if i < |xs| then xs[i] else Serialization.Null)
  }

  /** Four values of the types the entity's fields hold. */
  predicate FitsFields(vs: seq<Serialization.Scalar>)
  {
    |vs| == 4 && IsIdScalar(vs[0]) && IsStringScalar(vs[1]) && IsStringScalar(vs[2]) && IsStringScalar(vs[3])
  }

  class User {
    var id: Option<int>
    var username: Option<string>
    var password: Option<string>
    var token: Option<string>
    /** The roles set with `setRoles`; the unset (null) list is the empty one. */
    var roles: seq<string>

    constructor ()
      ensures id == None && username == None && password == None && token == None && roles == []
    {
      id, username, password, token, roles := None, None, None, None, [];
    }

    function GetId(): Option<int> reads this { id }
    function GetUsername(): Option<string> reads this { username }
    function GetPassword(): Option<string> reads this { password }
    function GetToken(): Option<string> reads this { token }

    method SetUsername(name: string) returns (self: User)
      modifies this
      ensures self == this && GetUsername() == Some(name)
      ensures id == old(id) && password == old(password) && token == old(token) && roles == old(roles)
    {
      username := Some(name);
      self := this;
    }

    method SetPassword(hash: string) returns (self: User)
      modifies this
      ensures self == this && GetPassword() == Some(hash)
      ensures id == old(id) && username == old(username) && token == old(token) && roles == old(roles)
    {
      password := Some(hash);
      self := this;
    }

    method SetToken(t: string) returns (self: User)
      modifies this
      ensures self == this && GetToken() == Some(t)
      ensures id == old(id) && username == old(username) && password == old(password) && roles == old(roles)
    {
      token := Some(t);
      self := this;
    }

    method SetRoles(rs: seq<string>) returns (self: User)
      modifies this
      ensures self == this && roles == rs
      ensures id == old(id) && username == old(username) && password == old(password) && token == old(token)
    {
      roles := rs;
      self := this;
    }

    /** `getRoles`: the stored roles plus `ROLE_USER`, without repetitions. */
    method GetRoles() returns (r: seq<string>)
      ensures RoleUser in r
      ensures NoDuplicates(r)
      ensures forall x :: x in r <==> x == RoleUser || x in roles
      ensures NoDuplicates(roles) && RoleUser !in roles ==> r == roles + [RoleUser]
      ensures forall i, j :: 0 <= i < j < |r| ==> Before(roles + [RoleUser], r[i], r[j])
    {
      var rs := roles;
      rs := rs + [RoleUser];
      if NoDuplicates(roles) && RoleUser !in roles {
        assert NoDuplicates(rs);
      }
      r := Unique(rs);
      UniqueKeepsFirstOrder(rs);
      assert rs == roles + [RoleUser];
    }

    /** The list `serialize` writes: id, username, password, token. */
    function Fields(): (vs: seq<Serialization.Scalar>)
      reads this
      ensures FitsFields(vs)
    {
      [IdScalar(id), StringScalar(username), StringScalar(password), StringScalar(token)]
    }

    /** `serialize`: what it writes yields the four fields again. */
    method Serialize() returns (s: string)
      ensures Serialization.Unserialize(s) == Some(Fields())
      ensures Listed(s) == Fields()
    {
      s := Serialization.Serialize(Fields());
      Serialization.SerializeRoundTrip(Fields());
    }

    /**
     * `unserialize`: overwrite the four fields with what `s` lists. Roles
     * are not part of the serialized form and stay.
     */
    method Unserialize(s: string)
      modifies this
      ensures roles == old(roles)
      ensures FitsFields(Listed(s)) ==> Fields() == Listed(s)
      ensures !FitsFields(Listed(s)) ==> id == None && username == None && password == None && token == None
    {
      var vs := Listed(s);
      if FitsFields(vs) {
        id, username, password, token := ScalarId(vs[0]), ScalarString(vs[1]), ScalarString(vs[2]), ScalarString(vs[3]);
        assert Fields() == [vs[0], vs[1], vs[2], vs[3]] == vs;
      } else {
        id, username, password, token := None, None, None, None;
      }
    }
  }

  /**
   * The session round trip: a user serialized and unserialized into a new
   * object (which PHP creates without running the constructor, all fields
   * null) has the original's id, username, password and token.
   */
  method SessionRoundTrip(u: User) returns (v: User)
    ensures v.id == u.id && v.username == u.username && v.password == u.password && v.token == u.token
  {
    var s := u.Serialize();
    v := new User();
    v.Unserialize(s);
    assert v.Fields() == u.Fields();
    assert ScalarId(IdScalar(u.id)) == u.id;
    assert ScalarString(StringScalar(u.username)) == u.username;
    assert ScalarString(StringScalar(u.password)) == u.password;
    assert ScalarString(StringScalar(u.token)) == u.token;
  }
}
