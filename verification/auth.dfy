/** The authentication gate, login, and the own-info query. */
module Auth {
  import opened Wrappers
  import opened Store
  import opened Http

  /** The verdict of `checkAuthenticated`: go on with the session's identity, or answer now. */
  datatype Gate = Pass(info: AuthInfo) | Reject(response: Response)

  function CheckAuthenticated(sess: Session): (g: Gate)
    ensures g.Pass? <==> sess.authInfo.Some?
    ensures g.Pass? ==> g.info == sess.authInfo.value
    ensures g.Reject? ==> g.response.status == 401
  {
    match sess.authInfo
    case None => Reject(PermissionDenied)
    case Some(info) => Pass(info)
  }

  /** The user row of `userName` exists and its personId names a person. */
  predicate HasJoinedRow(s: Store, userName: string)
  {
    userName in s.user && s.user[userName].personId in s.person
  }

  /**
    The rows of `select u.password, u.admin, u.personId, p.name, p.mail, p.age from user as u
    inner join person as p on (u.personId = p.id) where u.username = ?`: `username` is the
    primary key of `user`, so there is at most one.
   */
  function JoinedRow(s: Store, userName: string): Option<(User, Person)>
  {
    if HasJoinedRow(s, userName) then
      Some((s.user[userName], s.person[s.user[userName].personId]))
    else None
  }

  /** The credentials name an account with a person and the password matches it. */
  predicate CredentialsMatch(s: Store, userName: string, pw: string)
  {
    HasJoinedRow(s, userName) && s.user[userName].password == pw
  }

  /** The identity a successful login with `userName` installs. */
  function LoginInfo(s: Store, userName: string): AuthInfo
    requires HasJoinedRow(s, userName)
  {
    var u := s.user[userName];
    var p := s.person[u.personId];
    AuthInfo(u.personId, userName, p.name, p.mail, p.age, u.admin == 1)
  }

  /** `POST /api/login` with body `{user, pw}`. */
  function Login(s: Store, sess: Session, env: Env, userName: string, pw: string): (o: Outcome)
    ensures o.store == s
    ensures !env.reachable ==> o.response == Response(500, DbFailure(Unavailable))
    ensures o.response.status in {200, 403, 500}
    ensures o.response.status == 200 <==> env.reachable && CredentialsMatch(s, userName, pw)
    ensures o.response.status != 200 ==> o.session == sess
    ensures env.reachable && !HasJoinedRow(s, userName) ==>
              o.response == Response(403, Text("Login failed"))
    ensures env.reachable && HasJoinedRow(s, userName) && s.user[userName].password != pw ==>
              o.response == Response(403, Text("Wrong password"))
    ensures o.response.status == 200 ==>
              && o.session == Session(Some(LoginInfo(s, userName)))
              && o.response.body == AuthJson(LoginInfo(s, userName))
  {
    if !env.reachable then
      Outcome(s, sess, Response(500, DbFailure(Unavailable)))
    else
      match JoinedRow(s, userName)
      case None => Outcome(s, sess, Response(403, Text("Login failed")))
      case Some((u, _)) =>
        if u.password != pw then Outcome(s, sess, Response(403, Text("Wrong password")))
        else
          var info := LoginInfo(s, userName);
          Outcome(s, sess.(authInfo := Some(info)), Response(200, AuthJson(info)))
  }

  /** The identity a login installs: the stored personId, the name as supplied, the person's data, admin exactly when `admin` is 1. */
  lemma LoginInfoFields(s: Store, userName: string)
    requires HasJoinedRow(s, userName)
    ensures var info := LoginInfo(s, userName);
            var u := s.user[userName];
            && info.id == u.personId
            && info.userName == userName
            && info.name == s.person[u.personId].name
            && info.mail == s.person[u.personId].mail
            && info.age == s.person[u.personId].age
            && (info.isAdmin <==> u.admin == 1)
  {
  }

  /** `GET /api/ownInfo` */
  function OwnInfo(sess: Session): (r: Response)
    ensures r.status == 200
    ensures r.body == NullJson <==> sess.authInfo.None?
    ensures sess.authInfo.Some? ==> r.body == AuthJson(sess.authInfo.value)
  {
    match sess.authInfo
    case None => Response(200, NullJson)
    case Some(info) => Response(200, AuthJson(info))
  }

  /** A successful login is remembered: the next own-info query answers with the same identity. */
  lemma LoginThenOwnInfo(s: Store, sess: Session, env: Env, userName: string, pw: string)
    requires env.reachable && CredentialsMatch(s, userName, pw)
    ensures var o := Login(s, sess, env, userName, pw);
            OwnInfo(o.session) == o.response
            && o.response.body == AuthJson(LoginInfo(s, userName))
  {
  }

  /** A login leaves the session describing an existing account, whatever it answers. */
  lemma LoginKeepsSessionValid(s: Store, sess: Session, env: Env, userName: string, pw: string)
    requires SessionValid(s, sess)
    ensures SessionValid(s, Login(s, sess, env, userName, pw).session)
  {
  }

  /** At most one password logs in to an account: any other one is rejected. */
  lemma LoginRejectsOtherPasswords(s: Store, sess: Session, env: Env, userName: string, pw1: string, pw2: string)
    requires env.reachable && HasJoinedRow(s, userName)
    requires pw1 != pw2
    ensures Login(s, sess, env, userName, pw1).response.status != 200
            || Login(s, sess, env, userName, pw2).response.status != 200
  {
  }
}
