# User accounts behind a token-guarded API — a Dafny model

This project models the core of a small Symfony user-account service. It covers:

- the bearer-token generator;
- the user entity, with its setters, roles and session serialization;
- the user form, whose submit listener hashes the password and issues the token;
- the security controller: sign-up and the four JSON handlers on `/api/user`
  (GET, POST, PUT, DELETE), run over a user store.

Modules, one per source file or component:

| module | file | models |
|---|---|---|
| `Tokens` | `tokens.dfy` | `SecurityController::generateToken` |
| `Serialization` | `serialization.dfy` | PHP's `serialize`/`unserialize` for a list of null, integer and string values |
| `Entity` | `user.dfy` | class `User`: fields, getters, setters, `getRoles`, `serialize`/`unserialize` |
| `Store` | `store.dfy` | the user table and the lookups run on it (`findOneBy` by token, by id, by username) |
| `Validation` | `validation.dfy` | the `UniqueEntity` and `Length` constraints on `User` |
| `Forms` | `user_form.dfy` | `UserType::buildForm`: the two mapped fields and the POST_SUBMIT listener |
| `Controller` | `controller.dfy` | `register`, `apiUserGet`, `apiUserPost`, `apiUserPut`, `apiUserDelete` |
| `Wrappers` | `wrappers.dfy` | an `Option` type |

How the model is built:

- **Store.** The user table is a `map<int, Row>` held in class `Controller.SecurityController`, together with the
  auto-increment counter `nextId`. Each `Row` holds a username, a password hash and a token.
- **Invariant `Valid()`.** Every handler keeps it:
  - ids lie below the counter, so an id is never reused;
  - usernames are unique;
  - every stored token is a well-formed generator output.
- **Entity objects.** PUT, GET and DELETE hydrate a fresh `Entity.User` from a row, as Doctrine does, and then use
  its getters and setters. POST and sign-up submit the form on a fresh `User` and persist it.
  Persisting writes the new id straight into the entity's `id` field, because `id` has no setter.
- **Injected collaborators.** Three things that come from outside are parameters:
  - the password encoder is a function `encode: string -> string`, left uninterpreted;
  - `mt_rand` is the sequence of twenty indices it returns;
  - the sign-up page's "is the visitor signed in" check is a boolean.
- **Assumed order of form steps.** The username text field trims surrounding blanks (its default `trim`
  option); the password field does not. The model validates the submitted plaintext, then runs the listener
  (set the token, then hash the password), then persists if there were no violations. Symfony decides
  this order, not the application code.
- **How violations are reported.** The validator lists class constraints first, then properties in declaration order:
  1. uniqueness of `Username`;
  2. length of `Username`;
  3. length of `Password`.

  Their property paths are `data.Username` and `data.Password`. The messages are the `UniqueEntity` message and
  Symfony's default length message.

What is proved:

- tokens have exactly 20 alphabet symbols, and each token comes from exactly one sequence of draws;
- `unserialize(serialize(u))` restores the four fields;
- `getRoles` always contains `ROLE_USER` and has no repetitions;
- the validation rules hold in both directions: no violations exactly when the credentials are acceptable;
- in the error map, a later error overwrites an earlier one on the same path;
- every handler's frame condition: a failed guard or a missing id changes nothing, and PUT and DELETE touch only
  the target;
- a whole sign-up / read / edit / delete session, checked against a fresh store.

The token guard, `Store.Authorized(rows, token)`, takes no target id. Every handler's contract is stated through it,
so any valid token may read, edit or delete any id.

Two behaviours of the code, as written, are worth stating:

- **DELETE invalidates the caller's own token.** After the only user whose token the caller holds is deleted, that
  token matches no row. A later GET with it therefore fails the *token* guard ("invalid token"), not the lookup.
  "invalid user" comes back only when the caller holds another user's token (`Controller.SignUpDeleteRead` shows both).
- **PUT can be rejected by the database.** PUT runs no validation. When the new username belongs to another user,
  the column's unique index makes `flush` throw. The model answers `StoreRejected` and leaves the store unchanged.

## Model

| member | source | states |
|---|---|---|
| `Tokens.GenerateToken` | src/Controller/SecurityController.php:173-182 | the loop appends `Characters()[draws[i]]` for each of the 20 draws; the result is `TokenOf(draws)`: 20 characters, each an alphanumeric symbol |
| `Tokens.CharactersAreTheAlphabet` | src/Controller/SecurityController.php:175-176 | `array_merge(range('A','Z'), range('a','z'), range('0','9'))` has 62 entries, which are exactly the alphanumeric characters, each once, so `max` is 61 (`range('0','9')` yields the integers 0..9, which `.=` writes as the same digit characters) |
| `Tokens.IndexOf` | src/Controller/SecurityController.php:175-179 | every alphanumeric character sits at some index 0..61 of the alphabet |
| `Tokens.TokenOf` | src/Controller/SecurityController.php:177-181 | the token that draws in 0..61 produce has length 20 and only alphabet symbols |
| `Tokens.DistinctDrawsDistinctTokens` | src/Controller/SecurityController.php:177-179 | two different draw sequences give two different tokens |
| `Tokens.DrawsTokenBijection` | src/Controller/SecurityController.php:177-179 | draws and tokens are in one-to-one correspondence: each of the 62^20 tokens comes from exactly one draw sequence |
| `Serialization.Serialize` | src/Entity/User.php:100-105 | `serialize` of a list writes `a:<count>:{…}`: a string that starts with `a:` and ends with `}` |
| `Serialization.Unserialize` | src/Entity/User.php:114 | `unserialize` yields a list only for input that starts with `a:`; any other input is `None`, which `list()` turns into four nulls, as it does PHP's `false` or any non-array value |
| `Serialization.NatStringRoundTrip` | src/Entity/User.php:99-106 | the decimal digits that `serialize` writes for a number read back as that number |
| `Serialization.SerializeRoundTrip` | src/Entity/User.php:99-115 | `unserialize(serialize(vs))` returns the list `vs` for every list of null, integer and string values |
| `Entity.Unique` | src/Entity/User.php:86 | `array_unique`: the result has no repetitions, holds the same values as its input, and equals the input when the input had none |
| `Entity.UniqueKeepsFirstOrder` | src/Entity/User.php:86 | `array_unique` keeps the first of equal values: its values appear in the order of their first occurrences in the input |
| `Entity.User.GetRoles` | src/Entity/User.php:83-87 | the roles always include `ROLE_USER`, have no repetitions, hold exactly the stored roles plus `ROLE_USER`, and appear in the order of their first occurrence in the stored roles followed by `ROLE_USER` (so they equal that list when it has no repetitions) |
| `Entity.Listed` | src/Entity/User.php:109-114 | `list(...) = unserialize(s)` assigns all four variables null when `s` holds no list, and the list's entries 0..3 when it has at least four |
| `Entity.User.Serialize` | src/Entity/User.php:99-106 | what it writes unserializes to the list id, username, password, token |
| `Entity.User.Unserialize` | src/Entity/User.php:108-115 | overwrites the four fields with what the string lists (null for missing entries, null for all four when the string holds no list); the roles stay |
| `Entity.SessionRoundTrip` | src/Entity/User.php:99-115 | serializing a user and unserializing into a fresh object restores id, username, password and token exactly |
| `Entity.User.constructor` | src/Entity/User.php:17-39 | a new user has every field null |
| `Entity.User.SetUsername` | src/Entity/User.php:51-56 | afterwards `GetUsername()` is the new name; it returns the same object and changes no other field |
| `Entity.User.SetPassword` | src/Entity/User.php:63-68 | afterwards `GetPassword()` is the new value; it returns the same object and changes no other field |
| `Entity.User.SetToken` | src/Entity/User.php:75-80 | afterwards `GetToken()` is the new token; it returns the same object and changes no other field |
| `Entity.User.SetRoles` | src/Entity/User.php:89-93 | replaces the roles; it returns the same object and changes no other field |
| `Store.Authorized` | src/Controller/SecurityController.php:89 | the token guard `findOneBy(['Token' => token])`: a missing header never passes, nor does any token on an empty table |
| `Validation.Violations` | src/Entity/User.php:13-32 | a new user has no violations exactly when the username has at least 4 characters and is free and the password has at least 6; a username error appears exactly when the name is short or taken; a password error appears exactly when the password is short |
| `Forms.OnPostSubmit` | src/Form/Type/UserType.php:45-51 | a user with a null id gets the generated token and `encode(old password)`; a user with an id is left unchanged; the username and id are never changed |
| `Forms.TrimRemovesPadding` | src/Form/Type/UserType.php:30-35 | the text field's trimming removes only blank characters (Unicode Z, Cc, Cf) before and after the value, and leaves none at either end |
| `Forms.TrimPadded` | src/Form/Type/UserType.php:30-35 | conversely, blanks around a value with no blank at either end are exactly what trimming removes, so the result is determined |
| `Forms.TrimIdempotent` | src/Form/Type/UserType.php:30-35 | trimming a trimmed value changes nothing |
| `Forms.Submit` | src/Form/Type/UserType.php:27-58 | a fresh user with the submitted username trimmed (the password is not), a null id, `encode(password)` and the token of the draws; the request can set only username and password; the violations are those of the trimmed username and the plaintext password |
| `Controller.ErrorMapKeys` | src/Controller/SecurityController.php:121-125 | the POST error map has an entry for a property path exactly when some error has that path |
| `Controller.ErrorMapLastWins` | src/Controller/SecurityController.php:123-125 | the entry for a path holds the message of the last error with that path |
| `Controller.ParseErrors` | src/Controller/SecurityController.php:121-126 | the `foreach` builds exactly the error map |
| `Controller.CreationErrorFields` | src/Controller/SecurityController.php:120-127 | a rejected creation's map has a `data.Username` entry exactly when the name is short or taken, a `data.Password` entry exactly when the password is short, and no other entry |
| `Controller.CreationErrorMessages` | src/Controller/SecurityController.php:120-127 | a short username shows the length message even when it is also taken (the later error wins); a long but taken one shows the uniqueness message; a short password shows its length message |
| `Controller.SecurityController.constructor` | src/Controller/SecurityController.php:23-27 | an empty store with the counter at 1, satisfying the invariant |
| `Controller.SecurityController.Load` | src/Controller/SecurityController.php:93 | `findOneBy(['id' => id])` hydrates a fresh entity holding the stored row; its unmapped roles are unset |
| `Controller.SecurityController.Persist` | src/Controller/SecurityController.php:116-117 | inserts the user under the next id, which was unused, writes that id into the entity and advances the counter; the entity's other fields, roles included, are kept; the invariant is kept |
| `Controller.SecurityController.FlushEdit` | src/Controller/SecurityController.php:169 | writes the edited user back unless another user has the username (the unique index rejects it); nothing else changes |
| `Controller.SecurityController.CreateUser` | src/Controller/SecurityController.php:111-119 | with no violations, adds exactly one row (trimmed username, `encode(password)`, `TokenOf(draws)`) under a fresh id and returns that id; otherwise persists nothing and returns the violations |
| `Controller.SecurityController.Register` | src/Controller/SecurityController.php:54-74 | a signed-in visitor or an unsubmitted form changes nothing; a valid submission (after the username is trimmed) adds exactly one row under a fresh id; an invalid one persists nothing and shows the violations; there is no token check |
| `Controller.SecurityController.ApiUserGet` | src/Controller/SecurityController.php:84-98 | "invalid token" exactly when no user owns the token; "invalid user" exactly when the id is absent; otherwise the id, username, stored hash and token, verbatim; the store is not modified |
| `Controller.SecurityController.ApiUserPost` | src/Controller/SecurityController.php:103-128 | a failed guard changes nothing; credentials valid after the username is trimmed add exactly one row under a fresh id and answer `created id`; invalid ones persist nothing and answer the error map |
| `Controller.SecurityController.ApiUserPut` | src/Controller/SecurityController.php:154-171 | a failed guard or a missing id changes nothing; otherwise the target gets the payload username and `encode(payload password)` without validation, keeping its id and token, and no other row changes (or, when another user has the name, nothing changes) |
| `Controller.SecurityController.ApiUserDelete` | src/Controller/SecurityController.php:133-149 | a failed guard or a missing id changes nothing; otherwise exactly the target row is removed, the counter is kept, and the answer is the requested id |
| `Controller.SignUpTwice` | src/Controller/SecurityController.php:54-74 | from a fresh store, signing up admin and alice gives ids 1 and 2 and exactly their two rows; a second sign-up as alice shows the uniqueness violation and stores nothing |
| `Controller.SignUpReadEdit` | src/Controller/SecurityController.php:84-171 | with alice's token, GET returns her record, PUT answers `edited user` for id 2, and a second GET returns the new name and hash with the same token |
| `Controller.SignUpDeleteRead` | src/Controller/SecurityController.php:84-149 | with alice's token, DELETE answers `deleted id` 2; afterwards GET with her token fails the token guard, and GET with the admin's token fails the id lookup |

## Left out

- `index`, `login` and `logout`, and the redirect, flash message, translation and rendering of `register`: these are
  presentation and session authentication. `register` is reduced to its outcome.
- Doctrine's query execution and its unit of work. The table is a map, `flush` is a map update, and the
  auto-increment is a counter. Integers are unbounded; the 64-bit width of ids is not modelled. String columns are unbounded too: the
  255-character limit of the username, password and token columns is not modelled, so an over-long username
  that passes validation is stored, where a strict database would reject the insert or update.
- The password encoder's algorithm and salting. `encode` is an uninterpreted function of the plaintext, so the model
  cannot state that the hash differs from the plaintext, nor that two encodings of one plaintext differ.
- JSON decoding of request bodies and PHP's handling of missing keys in `$data`. Requests are typed records. The
  `token` header is an `Option` (absent is null, which matches no row), and the body's `id` is always an integer.
- The statistical quality of `mt_rand`. Draws are injected, and their range 0..61 is a precondition.
- Symfony's ordering of its validation listener against the POST_SUBMIT listener. The model fixes the order as
  validate, then listener. Symfony's exact reporting of errors is also not modelled: the order, the paths and the
  message texts are the assumptions stated above, and the form's extra-field check is not modelled either.
- Symfony's `Length` validator lets the empty string through, and an empty form field reaches the setter as null.
  Neither is modelled: a username or password shorter than its minimum length is always a violation, and a
  username of blanks only is submitted as the empty string.
- HTTP status codes, `HEAD` routing and CSRF.
- `getSalt` and `eraseCredentials` do nothing and are not modelled.
- src/DataFixtures/UserFixture.php is not part of this model. It is a one-off seed whose only logic, token
  generation, is modelled. `Controller.SignUpTwice` seeds its admin through sign-up instead.
- `Entity.User.Unserialize`: a list entry of the wrong type for its field (an integer where a string belongs) is
  treated like input that holds no list, so all four fields become null. PHP would store the mistyped value.
  Serialized arrays whose keys are not 0, 1, 2, … are treated the same way. Data after the list is ignored, as PHP
  does (8.3 and later also emit a warning). Characters stand for bytes. A serialized object (`O:…`, an incomplete
  class under `allowed_classes => false`) is also treated as no list, so all four fields become null; PHP's `list()`
  raises an error on an object instead.
- `Entity.User.GetRoles`: PHP's `array_unique` keeps the original keys, which can leave gaps. The model returns a
  sequence, and an unset roles list is the empty sequence.
- Trimming treats as blank the characters of Unicode categories Z, Cc and Cf as of Unicode 15, which is what
  the form's trimming pattern `[\pZ\p{Cc}\p{Cf}]` matches; a PCRE built on another Unicode version may differ in
  the format characters.
- `Controller.SecurityController.ApiUserPut`: when the unique index rejects the update, PHP throws an uncaught
  exception (a server error). The model answers `StoreRejected` and leaves the store unchanged.
