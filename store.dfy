/**
 * The user table as the controller sees it through Doctrine: rows keyed by
 * the store-assigned id, and the lookups the handlers and the validator run.
 */
module Store {
  import opened Wrappers

  /** One stored user: username, password hash and bearer token. */
  datatype Row = Row(username: string, password: string, token: string)

  /**
   * `findOneBy(['Token' => token])` finds a user. A missing header is null,
   * which no row's (non-null) token column matches.
   */
  predicate Authorized(rows: map<int, Row>, token: Option<string>): (r: bool)
    ensures token.None? ==> !r
    ensures rows == map[] ==> !r
  {
    token.Some? && exists k :: k in rows && rows[k].token == token.value
  }

  /** `findOneBy(['id' => id])` finds a user. */
  predicate Exists(rows: map<int, Row>, id: int)
  {
    id in rows
  }

  /** Some stored user has this username (the lookup UniqueEntity runs). */
  predicate UsernameTaken(rows: map<int, Row>, name: string)
  {
    exists k :: k in rows && rows[k].username == name
  }

  /** A user other than `id` has this username. */
  predicate TakenByOther(rows: map<int, Row>, id: int, name: string)
  {
    exists k :: k in rows && k != id && rows[k].username == name
  }

  /** No two stored users share a username (the column's unique index). */
  predicate UniqueUsernames(rows: map<int, Row>)
  {
    forall j, k :: j in rows && k in rows && j != k ==> rows[j].username != rows[k].username
  }
}
