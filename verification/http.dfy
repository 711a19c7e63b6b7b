/**
  What a request handler sees and produces: the session record kept by express-session,
  the per-request environment (database availability and clock), and the response sent.
 */
module Http {
  import opened Wrappers
  import opened Store

  /** The identity snapshot a successful login installs in the session. */
  datatype AuthInfo = AuthInfo(id: int, userName: string, name: string, mail: string, age: int, isAdmin: bool)

  /** A session; `authInfo` is absent until a login succeeds. */
  datatype Session = Session(authInfo: Option<AuthInfo>)

  /** A new session, as express-session creates for a client without one. */
  const Anonymous: Session := Session(None)

  /**
    What the handlers cannot see: whether the pool hands out a connection and the queries
    reach the server, whether COMMIT succeeds, and the database clock (forum.ts default).
   */
  datatype Env = Env(reachable: bool, commitSucceeds: bool, now: int)

  /** A row of `select p.id, p.name, p.mail, p.age from person as p ...`. */
  datatype PersonRow = PersonRow(id: int, name: string, mail: string, age: int)

  datatype Body =
    | Text(text: string)                 // res.send('...')
    | DbFailure(error: DbError)          // res.send(error) / res.json(error)
    | AuthJson(info: AuthInfo)           // res.json(authInfo)
    | NullJson                           // res.json(null)
    | TrueJson                           // res.json(true)
    | PostJson(post: Post)               // res.json(newEntry)
    | PostsJson(posts: seq<Post>)        // res.json(messages)
    | PersonsJson(rows: seq<PersonRow>)  // res.json(values)
    | RedirectHome                       // res.redirect(baseDir)
    | AddFriendFailed(ownId: int, otherId: Option<int>, otherName: Option<string>)

  datatype Response = Response(status: nat, body: Body)

  /** The state a handler leaves behind and what it answers. */
  datatype Outcome = Outcome(store: Store, session: Session, response: Response)

  /** The answer of `checkAuthenticated` to a session without `authInfo`. */
  const PermissionDenied: Response := Response(401, Text("Permission denied"))

  /** The person row of `id` as a select returns it. */
  function RowOf(s: Store, id: int): PersonRow
    requires id in s.person
  {
    PersonRow(id, s.person[id].name, s.person[id].mail, s.person[id].age)
  }

  /**
    A logged-in session names an account that exists and the person it belongs to.
    Nothing in the model deletes rows, so once true this stays true.
   */
  ghost predicate SessionValid(s: Store, sess: Session)
  {
    sess.authInfo.Some? ==>
      && sess.authInfo.value.userName in s.user
      && s.user[sess.authInfo.value.userName].personId == sess.authInfo.value.id
      && sess.authInfo.value.id in s.person
  }
}
