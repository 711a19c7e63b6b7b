/**
  The routes of the server that the model covers, dispatched on one request at a time, and a
  run of requests from many sessions against one store.
 */
module Server {
  import opened Wrappers
  import opened Store
  import opened Http
  import Auth
  import Accounts
  import Friends
  import Forum

  datatype Request =
    | LoginReq(user: string, pw: string)                          // POST /api/login
    | OwnInfoReq                                                   // GET  /api/ownInfo
    | CreateAccountReq(form: Accounts.AccountForm)                 // POST /api/createAccount
    | AddFriendReq(otherId: Option<int>, otherName: Option<string>) // GET  /api/addFriend
    | GetFriendsReq(ownId: int)                                    // GET  /api/getFriends/:ownId
    | AddMessageReq(message: string)                               // POST /api/addMessage
    | MessagesReq                                                  // GET  /api/messages

  /** `GET /api/getFriends/:ownId`; this route asks for no login. */
  function GetFriendsRoute(s: Store, env: Env, ownId: int): (r: Response)
    ensures r.status == 200 <==> env.reachable
    ensures r.status != 200 ==> r == Response(500, Text("error occurred"))
    ensures r.status == 200 ==>
              && r.body.PersonsJson?
              && (forall row :: row in r.body.rows ==>
                    row.id in s.person && row == RowOf(s, row.id) && Linked(s.friends, ownId, row.id))
              && (forall p :: p in s.person && Linked(s.friends, ownId, p) ==> RowOf(s, p) in r.body.rows)
  {
    if env.reachable then Response(200, PersonsJson(Friends.GetFriends(s, ownId)))
    else Response(500, Text("error occurred"))
  }

  /** Requests that only read. */
  predicate ReadOnly(req: Request)
  {
    req.LoginReq? || req.OwnInfoReq? || req.GetFriendsReq? || req.MessagesReq?
  }

  /** Nothing is deleted or rewritten: `b` holds every row of `a`, unchanged. */
  ghost predicate Grows(a: Store, b: Store)
  {
    && (forall id :: id in a.person ==> id in b.person && b.person[id] == a.person[id])
    && (forall name :: name in a.user ==> name in b.user && b.user[name] == a.user[name])
    && a.friends <= b.friends
    && a.forum <= b.forum
  }

  function Handle(s: Store, sess: Session, env: Env, req: Request): (o: Outcome)
    ensures ReadOnly(req) ==> o.store == s
    ensures !req.LoginReq? ==> o.session == sess
    ensures sess.authInfo.None? ==> o.store.friends == s.friends && o.store.forum == s.forum
    ensures sess.authInfo.None? && (req.AddFriendReq? || req.AddMessageReq?) ==>
              o.store == s && o.response == PermissionDenied
    ensures s.Valid() ==> Grows(s, o.store)
  {
    match req
    case LoginReq(user, pw) => Auth.Login(s, sess, env, user, pw)
    case OwnInfoReq => Outcome(s, sess, Auth.OwnInfo(sess))
    case CreateAccountReq(form) => Accounts.CreateAccount(s, sess, env, form)
    case AddFriendReq(otherId, otherName) => Friends.AddFriend(s, sess, env, otherId, otherName)
    case GetFriendsReq(ownId) => Outcome(s, sess, GetFriendsRoute(s, env, ownId))
    case AddMessageReq(message) => Forum.AddMessage(s, sess, env, message)
    case MessagesReq => Outcome(s, sess, Forum.Messages(s, env))
  }

  /** The store is consistent and every session names an existing account. */
  ghost predicate Inv(s: Store, sessions: map<nat, Session>)
  {
    && s.Valid()
    && Friends.OneOrientation(s.friends)
    && forall sid :: sid in sessions ==> SessionValid(s, sessions[sid])
  }

  lemma HandlePreservesValid(s: Store, sess: Session, env: Env, req: Request)
    requires s.Valid() && Friends.OneOrientation(s.friends) && SessionValid(s, sess)
    ensures var o := Handle(s, sess, env, req);
            o.store.Valid() && Friends.OneOrientation(o.store.friends) && SessionValid(o.store, o.session)
  {
    var o := Handle(s, sess, env, req);
    match req
    case LoginReq(user, pw) =>
      Auth.LoginKeepsSessionValid(s, sess, env, user, pw);
    case CreateAccountReq(form) =>
      Accounts.CreateAccountPreservesValid(s, sess, env, form);
    case AddFriendReq(otherId, otherName) =>
      Friends.AddFriendPreservesValid(s, sess, env, otherId, otherName);
    case AddMessageReq(message) =>
      Forum.AddMessagePreservesValid(s, sess, env, message);
    case _ =>
  }

  /** A session that was valid stays valid while the store only grows. */
  lemma SessionValidGrows(a: Store, b: Store, sess: Session)
    requires SessionValid(a, sess) && Grows(a, b)
    ensures SessionValid(b, sess)
  {
  }

  lemma GrowsTransitive(a: Store, b: Store, c: Store)
    requires Grows(a, b) && Grows(b, c)
    ensures Grows(a, c)
  {
  }

  /** The session a request with id `sid` runs in: the stored one, or a new anonymous one. */
  function SessionOf(sessions: map<nat, Session>, sid: nat): Session
  {
    if sid in sessions then sessions[sid] else Anonymous
  }

  /** One request keeps the invariant for its own session and for every other one. */
  lemma StepKeepsInv(s: Store, sessions: map<nat, Session>, sid: nat, env: Env, req: Request)
    requires Inv(s, sessions)
    ensures var o := Handle(s, SessionOf(sessions, sid), env, req);
            Inv(o.store, sessions[sid := o.session]) && Grows(s, o.store)
  {
    var o := Handle(s, SessionOf(sessions, sid), env, req);
    HandlePreservesValid(s, SessionOf(sessions, sid), env, req);
    forall other | other in sessions
      ensures SessionValid(o.store, sessions[other])
    {
      SessionValidGrows(s, o.store, sessions[other]);
    }
  }

  /**
    Serve `calls` in order; each names a session id (a client without a session gets a new,
    anonymous one). There is one answer per call, the invariant holds throughout, and no row
    is ever removed or rewritten.
   */
  method Replay(s: Store, sessions: map<nat, Session>, calls: seq<(nat, Env, Request)>)
    returns (s': Store, sessions': map<nat, Session>, responses: seq<Response>)
    requires Inv(s, sessions)
    ensures Inv(s', sessions')
    ensures Grows(s, s')
    ensures |responses| == |calls|
  {
    s', sessions', responses := s, sessions, [];
    var k := 0;
    while k < |calls|
      invariant 0 <= k <= |calls|
      invariant Inv(s', sessions')
      invariant Grows(s, s')
      invariant |responses| == k
    {
      var (sid, env, req) := calls[k];
      var o := Handle(s', SessionOf(sessions', sid), env, req);
      StepKeepsInv(s', sessions', sid, env, req);
      GrowsTransitive(s, s', o.store);
      s', sessions', responses := o.store, sessions'[sid := o.session], responses + [o.response];
      k := k + 1;
    }
  }
}
