/** The forum: `POST /api/addMessage` and `GET /api/messages`. */
module Forum {
  import opened Wrappers
  import opened Store
  import opened Http
  import opened Auth

  /** `select * from forum where id = ?`: the first row with that id, if any. */
  function FindPost(posts: seq<Post>, id: int): (r: Option<Post>)
    ensures r.Some? ==> r.value in posts && r.value.id == id
    ensures r.None? ==> forall p :: p in posts ==> p.id != id
    ensures r.Some? ==> exists k :: 0 <= k < |posts| && posts[k] == r.value && forall j :: 0 <= j < k ==> posts[j].id != id
  {
    if |posts| == 0 then None
    else if posts[0].id == id then Some(posts[0])
    else FindPost(posts[1..], id)
  }

  /**
    `POST /api/addMessage` with body `{message}`: insert a post under the session's user name,
    then answer with the row read back by its generated id. The text is stored as given.
   */
  function AddMessage(s: Store, sess: Session, env: Env, message: string): (o: Outcome)
    ensures o.session == sess
    ensures sess.authInfo.None? ==> o.store == s && o.response == PermissionDenied
    ensures o.response.status == 401 <==> sess.authInfo.None?
    ensures o.response.status in {200, 401, 500}
    ensures o.store.(forum := s.forum, nextPostId := s.nextPostId) == s
    ensures o.response.status == 200 <==>
              sess.authInfo.Some? && env.reachable && s.nextPostId <= IntMax
              && sess.authInfo.value.userName in s.user
    ensures o.response.status != 200 ==> o.store == s
    ensures o.response.status == 200 ==>
              var post := Post(s.nextPostId, sess.authInfo.value.userName, env.now, message);
              && o.store.forum == s.forum + [post]
              && o.store.nextPostId == s.nextPostId + 1
              && (s.Valid() ==> o.response.body == PostJson(post))
  {
    match CheckAuthenticated(sess)
    case Reject(denied) => Outcome(s, sess, denied)
    case Pass(info) =>
      if !env.reachable then Outcome(s, sess, Response(500, DbFailure(Unavailable)))
      else
        match InsertPost(s, info.userName, message, env.now)
        case Err(e) => Outcome(s, sess, Response(500, DbFailure(e)))
        case Ok(s') =>
          // the row just inserted carries the generated id, so the re-read finds a row
          assert s'.forum[|s.forum|] in s'.forum;
          var entry := FindPost(s'.forum, s.nextPostId).value;
          Outcome(s', sess, Response(200, PostJson(entry)))
  }

  lemma AddMessagePreservesValid(s: Store, sess: Session, env: Env, message: string)
    requires s.Valid()
    ensures AddMessage(s, sess, env, message).store.Valid()
  {
  }

  /** Ascending by timestamp. */
  predicate SortedByTs(ps: seq<Post>)
  {
    forall i, j :: 0 <= i < j < |ps| ==> ps[i].ts <= ps[j].ts
  }

  /** Put `p` into the sorted `ps`, after every post that is not later than it. */
  function InsertByTs(p: Post, ps: seq<Post>): (r: seq<Post>)
    requires SortedByTs(ps)
    ensures SortedByTs(r)
    ensures multiset(r) == multiset(ps) + multiset{p}
    ensures forall q :: q in r ==> q in ps || q == p
    decreases |ps|
  {
    if |ps| == 0 then [p]
    else if ps[|ps| - 1].ts <= p.ts then ps + [p]
    else
      var last := ps[|ps| - 1];
      var init := ps[..|ps| - 1];
      assert ps == init + [last];
      var r' := InsertByTs(p, init);
      assert forall q :: q in r' ==> q.ts <= last.ts;
      r' + [last]
  }

  /**
    `select * from forum order by ts ASC`, a stable insertion sort; posts with the same
    timestamp keep their table order.
   */
  function SortByTs(ps: seq<Post>): (r: seq<Post>)
    ensures SortedByTs(r)
    ensures multiset(r) == multiset(ps)
    decreases |ps|
  {
    if |ps| == 0 then []
    else
      var init := ps[..|ps| - 1];
      assert ps == init + [ps[|ps| - 1]];
      InsertByTs(ps[|ps| - 1], SortByTs(init))
  }

  /** A table already in timestamp order comes back exactly as stored. */
  lemma {:induction false} SortByTsKeepsSorted(ps: seq<Post>)
    requires SortedByTs(ps)
    ensures SortByTs(ps) == ps
    decreases |ps|
  {
    if |ps| > 0 {
      var last := ps[|ps| - 1];
      var init := ps[..|ps| - 1];
      assert ps == init + [last];
      assert SortedByTs(init);
      SortByTsKeepsSorted(init);
      assert SortByTs(ps) == InsertByTs(last, init);
      if |init| > 0 {
        assert init[|init| - 1].ts <= last.ts;
      }
    }
  }

  /** `GET /api/messages`: every post, each exactly once, oldest first. */
  function Messages(s: Store, env: Env): (r: Response)
    ensures r.status == 200 <==> env.reachable
    ensures r.status != 200 ==> r.status == 500
    ensures r.status == 200 ==>
              r.body.PostsJson? && SortedByTs(r.body.posts) && multiset(r.body.posts) == multiset(s.forum)
  {
    if env.reachable then Response(200, PostsJson(SortByTs(s.forum)))
    else Response(500, DbFailure(Unavailable))
  }

  /** A post stamped no earlier than every other one is sorted to the end, behind the others in their sorted order. */
  lemma AppendLatestListedLast(ps: seq<Post>, p: Post)
    requires forall q :: q in ps ==> q.ts <= p.ts
    ensures SortByTs(ps + [p]) == SortByTs(ps) + [p]
  {
    var xs := ps + [p];
    assert xs[..|xs| - 1] == ps;
    var r := SortByTs(ps);
    if |r| > 0 {
      assert r[|r| - 1] in multiset(ps);
    }
  }

  /**
    Appending a post with a timestamp no earlier than every stored one puts it at the end of
    the listing, after all other posts in their listed order.
   */
  lemma MessagesAfterAppend(s: Store, sess: Session, env: Env, message: string)
    requires forall p :: p in s.forum ==> p.ts <= env.now
    requires AddMessage(s, sess, env, message).response.status == 200
    ensures var o := AddMessage(s, sess, env, message);
            var post := Post(s.nextPostId, sess.authInfo.value.userName, env.now, message);
            Messages(o.store, env).body == PostsJson(SortByTs(s.forum) + [post])
  {
    var post := Post(s.nextPostId, sess.authInfo.value.userName, env.now, message);
    AppendLatestListedLast(s.forum, post);
  }
}
