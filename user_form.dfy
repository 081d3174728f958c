/**
 * The user form type (`App\Form\Type\UserType`): it maps exactly two request
 * fields, `username` and `password`, onto a new `User`, and its POST_SUBMIT
 * listener gives a user that has no id yet a fresh token and replaces the
 * plaintext password with its encoding.
 *
 * The order of the framework's validation against this listener is fixed
 * here as: validate the submitted plaintext, then run the listener.
 */
module Forms {
  import opened Wrappers
  import Tokens
  import Entity
  import Store
  import Validation

  /** The mapped fields of the form; nothing else of the request reaches the user. */
  datatype UserForm = UserForm(username: string, password: string)

  // Trimming. A text field (`TextType`, whose `trim` option is on by default)
  // strips surrounding separators, control and format characters from the
  // submitted value before it is written to the entity; a password field
  // (`PasswordType`) does not.

  predicate InRange(c: char, lo: int, hi: int)
  {
    lo <= c as int <= hi
  }

  /** A character of Unicode category Z (separators), Cc (controls) or Cf (format characters). */
  predicate IsBlank(c: char)
  {
    // Cc
    InRange(c, 0x00, 0x1F) || InRange(c, 0x7F, 0x9F)
    // Zs, Zl, Zp
    || c as int == 0x20 || c as int == 0xA0 || c as int == 0x1680 || InRange(c, 0x2000, 0x200A)
    || InRange(c, 0x2028, 0x2029) || c as int == 0x202F || c as int == 0x205F || c as int == 0x3000
    // Cf
    || c as int == 0xAD || InRange(c, 0x600, 0x605) || c as int == 0x61C || c as int == 0x6DD
    || c as int == 0x70F || InRange(c, 0x890, 0x891) || c as int == 0x8E2 || c as int == 0x180E
    || InRange(c, 0x200B, 0x200F) || InRange(c, 0x202A, 0x202E) || InRange(c, 0x2060, 0x2064)
    || InRange(c, 0x2066, 0x206F) || c as int == 0xFEFF || InRange(c, 0xFFF9, 0xFFFB)
    || c as int == 0x110BD || c as int == 0x110CD || InRange(c, 0x13430, 0x1343F)
    || InRange(c, 0x1BCA0, 0x1BCA3) || InRange(c, 0x1D173, 0x1D17A) || c as int == 0xE0001
    || InRange(c, 0xE0020, 0xE007F)
  }

  predicate AllBlank(s: string)
  {
    forall i :: 0 <= i < |s| ==> IsBlank(s[i])
  }

  /** Neither the first nor the last character is blank. */
  predicate Unpadded(s: string)
  {
    s == [] || (!IsBlank(s[0]) && !IsBlank(s[|s| - 1]))
  }

  /** s is r with blank characters before (the first i) and after it. */
  predicate Pads(s: string, i: int, r: string)
  {
    0 <= i && i + |r| <= |s| && s[i..i + |r|] == r && AllBlank(s[..i]) && AllBlank(s[i + |r|..])
  }

  /** s without its leading blanks. */
  function TrimStart(s: string): string
    decreases |s|
  {
    if s != [] && IsBlank(s[0]) then TrimStart(s[1..]) else s
  }

  /** s without its trailing blanks. */
  function TrimEnd(s: string): string
    decreases |s|
  {
    if s != [] && IsBlank(s[|s| - 1]) then TrimEnd(s[..|s| - 1]) else s
  }

  /** The value a text field writes: the submission without surrounding blanks. */
  function Trim(s: string): string
  {
    TrimEnd(TrimStart(s))
  }

  /** TrimStart drops a blank prefix and stops at a non-blank character. */
  lemma {:induction false} TrimStartDrops(s: string)
    ensures var r := TrimStart(s);
      && |r| <= |s| && r == s[|s| - |r|..] && AllBlank(s[..|s| - |r|])
      && (r == [] || !IsBlank(r[0]))
    decreases |s|
  {
    if s != [] && IsBlank(s[0]) {
      TrimStartDrops(s[1..]);
      var r := TrimStart(s[1..]);
      assert s[..|s| - |r|] == [s[0]] + s[1..][..|s| - 1 - |r|];
    }
  }

  /** TrimEnd drops a blank suffix and stops at a non-blank character. */
  lemma {:induction false} TrimEndDrops(s: string)
    ensures var r := TrimEnd(s);
      && |r| <= |s| && r == s[..|r|] && AllBlank(s[|r|..])
      && (r == [] || !IsBlank(r[|r| - 1]))
    decreases |s|
  {
    if s != [] && IsBlank(s[|s| - 1]) {
      TrimEndDrops(s[..|s| - 1]);
      var r := TrimEnd(s[..|s| - 1]);
      assert s[|r|..] == s[..|s| - 1][|r|..] + [s[|s| - 1]];
    }
  }

  /** Trim removes surrounding blanks only, and leaves none. */
  lemma TrimRemovesPadding(s: string)
    ensures Unpadded(Trim(s))
    ensures exists i :: Pads(s, i, Trim(s))
  {
    var t := TrimStart(s);
    var r := TrimEnd(t);
    TrimStartDrops(s);
    TrimEndDrops(t);
    assert Pads(s, |s| - |t|, r) by {
      assert s[|s| - |t|..][..|r|] == s[|s| - |t|..|s| - |t| + |r|];
      assert s[|s| - |t| + |r|..] == t[|r|..];
    }
  }

  lemma {:induction false} TrimStartOf(pre: string, t: string)
    requires AllBlank(pre) && (t == [] || !IsBlank(t[0]))
    ensures TrimStart(pre + t) == t
    decreases |pre|
  {
    if pre == [] {
      assert pre + t == t;
    } else {
      assert (pre + t)[1..] == pre[1..] + t;
      TrimStartOf(pre[1..], t);
    }
  }

  lemma {:induction false} TrimEndOf(t: string, post: string)
    requires AllBlank(post) && (t == [] || !IsBlank(t[|t| - 1]))
    ensures TrimEnd(t + post) == t
    decreases |post|
  {
    if post == [] {
      assert t + post == t;
    } else {
      assert (t + post)[..|t + post| - 1] == t + post[..|post| - 1];
      TrimEndOf(t, post[..|post| - 1]);
    }
  }

  /**
   * Trim is the one function meeting its contract: blanks around an unpadded
   * value are exactly what it removes.
   */
  lemma TrimPadded(pre: string, v: string, post: string)
    requires AllBlank(pre) && AllBlank(post) && Unpadded(v)
    ensures Trim(pre + v + post) == v
  {
    if v == [] {
      assert pre + v + post == pre + post;
      assert AllBlank(pre + post);
      TrimStartDrops(pre + post);
    } else {
      assert pre + v + post == pre + (v + post);
      TrimStartOf(pre, v + post);
      TrimEndOf(v, post);
    }
  }

  /** A value with no surrounding blanks is submitted unchanged. */
  lemma TrimUnpadded(v: string)
    requires Unpadded(v)
    ensures Trim(v) == v
  {
    assert [] + v + [] == v;
    TrimPadded([], v, []);
  }

  /** Trimming twice is trimming once. */
  lemma TrimIdempotent(s: string)
    ensures Trim(Trim(s)) == Trim(s)
  {
    TrimRemovesPadding(s);
    TrimUnpadded(Trim(s));
  }

  /**
   * The POST_SUBMIT listener. A user without an id gets a generated token and
   * the encoding of its password; any other user is left as it is. The
   * username is never touched.
   */
  method OnPostSubmit(user: Entity.User, encode: string -> string, draws: seq<int>)
    requires Tokens.ValidDraws(draws)
    // `encodePassword` takes a string: a null password is a type error
    requires user.id == None ==> user.password.Some?
    modifies user
    ensures user.id == old(user.id) && user.username == old(user.username) && user.roles == old(user.roles)
    ensures old(user.id) == None ==>
      user.token == Some(Tokens.TokenOf(draws)) && user.password == Some(encode(old(user.password).value))
    ensures old(user.id) != None ==> user.token == old(user.token) && user.password == old(user.password)
  {
    if user.GetId() == None {
      var token := Tokens.GenerateToken(draws);
      var _ := user.SetToken(token);
      var _ := user.SetPassword(encode(user.GetPassword().value));
    }
  }

  /**
   * Create the form on a new user, submit the request's fields (the username
   * trimmed, the password as sent), validate and run the listener. The result is the form's data and the violations found.
   */
  method Submit(rows: map<int, Store.Row>, data: UserForm, encode: string -> string, draws: seq<int>)
    returns (user: Entity.User, violations: seq<Validation.Violation>)
    requires Tokens.ValidDraws(draws)
    ensures fresh(user)
    ensures user.id == None && user.roles == []
    ensures user.username == Some(Trim(data.username))
    ensures user.password == Some(encode(data.password))
    ensures user.token == Some(Tokens.TokenOf(draws))
    ensures violations == Validation.Violations(rows, Trim(data.username), data.password)
  {
    user := new Entity.User();
    var _ := user.SetUsername(Trim(data.username));
    var _ := user.SetPassword(data.password);
    violations := Validation.Violations(rows, user.GetUsername().value, user.GetPassword().value);
    OnPostSubmit(user, encode, draws);
  }
}
