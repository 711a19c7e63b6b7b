/** The friends graph: `addFriend`, `countFriends` and the `getFriends/:ownId` query. */
module Friends {
  import opened Wrappers
  import opened Store
  import opened Http
  import opened Auth

  /**
    No friendship is stored in both orientations. The schema does not enforce this (its key
    is the ordered pair); `addFriend` keeps it by looking for both orientations first.
   */
  ghost predicate OneOrientation(es: seq<Edge>)
  {
    forall a, b :: Edge(a, b) in es && Edge(b, a) in es ==> a == b
  }

  /** The other person of `addFriend`: `otherId` when given, else the personId of account `otherName`. */
  function ResolveOther(s: Store, otherId: Option<int>, otherName: Option<string>): (r: Option<int>)
    ensures otherId.Some? ==> r == otherId
    ensures otherId.None? ==> (r.Some? <==> otherName.Some? && otherName.value in s.user)
    ensures otherId.None? && r.Some? ==> r.value == s.user[otherName.value].personId
  {
    match otherId
    case Some(id) => Some(id)
    case None =>
      if otherName.Some? && otherName.value in s.user then Some(s.user[otherName.value].personId)
      else None
  }

  /** `GET /api/addFriend?otherId=&otherName=` */
  function AddFriend(s: Store, sess: Session, env: Env, otherId: Option<int>, otherName: Option<string>): (o: Outcome)
    ensures o.session == sess
    ensures o.store.(friends := s.friends) == s
    ensures sess.authInfo.None? ==> o.store == s && o.response == PermissionDenied
    ensures sess.authInfo.Some? && env.reachable && ResolveOther(s, otherId, otherName).None? ==>
              o.store == s && o.response == Response(500, Text("Unknown user"))
    ensures o.response.status != 200 ==> o.store == s
    ensures o.response.status == 401 <==> sess.authInfo.None?
    ensures o.response.status in {200, 401, 500}
    ensures o.response.status == 200 <==>
              && sess.authInfo.Some? && env.reachable && ResolveOther(s, otherId, otherName).Some?
              && var own, other := sess.authInfo.value.id, ResolveOther(s, otherId, otherName).value;
                 Linked(s.friends, own, other) || (own in s.person && other in s.person)
    ensures o.response.status == 200 ==>
              o.response.body == TrueJson
              && Linked(o.store.friends, sess.authInfo.value.id, ResolveOther(s, otherId, otherName).value)
    ensures o.store.friends != s.friends ==>
              && sess.authInfo.Some? && ResolveOther(s, otherId, otherName).Some?
              && var own, other := sess.authInfo.value.id, ResolveOther(s, otherId, otherName).value;
                 !Linked(s.friends, own, other) && o.store.friends == s.friends + [Edge(own, other)]
  {
    match CheckAuthenticated(sess)
    case Reject(denied) => Outcome(s, sess, denied)
    case Pass(info) =>
      var own := info.id;
      if !env.reachable then
        Outcome(s, sess, Response(500, AddFriendFailed(own, otherId, otherName)))
      else
        match ResolveOther(s, otherId, otherName)
        case None => Outcome(s, sess, Response(500, Text("Unknown user")))
        case Some(other) =>
          if Linked(s.friends, own, other) then
            Outcome(s, sess, Response(200, TrueJson))
          else
            match InsertEdge(s, Edge(own, other))
            case Err(_) => Outcome(s, sess, Response(500, AddFriendFailed(own, Some(other), otherName)))
            case Ok(s') => Outcome(s', sess, Response(200, TrueJson))
  }

  /** Idempotence: repeating a successful `addFriend` changes nothing and succeeds again. */
  lemma AddFriendIdempotent(s: Store, sess: Session, env: Env, otherId: Option<int>, otherName: Option<string>)
    requires AddFriend(s, sess, env, otherId, otherName).response.status == 200
    ensures var o1 := AddFriend(s, sess, env, otherId, otherName);
            var o2 := AddFriend(o1.store, o1.session, env, otherId, otherName);
            o2.store == o1.store && o2.response == o1.response
  {
    var o1 := AddFriend(s, sess, env, otherId, otherName);
    assert ResolveOther(o1.store, otherId, otherName) == ResolveOther(s, otherId, otherName);
  }

  /**
    Symmetry: once `a` has added `b`, `b` adding `a` back finds the existing row and
    leaves the store as it is.
   */
  lemma AddFriendSymmetric(s: Store, a: AuthInfo, b: AuthInfo, env: Env)
    requires AddFriend(s, Session(Some(a)), env, Some(b.id), None).response.status == 200
    ensures var o1 := AddFriend(s, Session(Some(a)), env, Some(b.id), None);
            var o2 := AddFriend(o1.store, Session(Some(b)), env, Some(a.id), None);
            o2.store == o1.store && o2.response == Response(200, TrueJson)
  {
  }

  lemma AddFriendPreservesValid(s: Store, sess: Session, env: Env, otherId: Option<int>, otherName: Option<string>)
    requires s.Valid() && OneOrientation(s.friends)
    ensures var o := AddFriend(s, sess, env, otherId, otherName);
            o.store.Valid() && OneOrientation(o.store.friends)
  {
    var o := AddFriend(s, sess, env, otherId, otherName);
    if o.store.friends != s.friends {
      var own, other := sess.authInfo.value.id, ResolveOther(s, otherId, otherName).value;
      var e := Edge(own, other);
      assert o.store.friends == s.friends + [e];
      assert e !in s.friends;
      forall x | x in o.store.friends
        ensures x.p1 in o.store.person && x.p2 in o.store.person
      {
        if x != e { assert x in s.friends; }
      }
      forall x, y | Edge(x, y) in o.store.friends && Edge(y, x) in o.store.friends
        ensures x == y
      {
        if Edge(x, y) != e && Edge(y, x) != e {
          assert Edge(x, y) in s.friends && Edge(y, x) in s.friends;
        }
      }
    }
  }

  lemma {:induction false} IncidentCountSnoc(es: seq<Edge>, e: Edge, id: int)
    ensures IncidentCount(es + [e], id) == IncidentCount(es, id) + (if e.Touches(id) then 1 else 0)
  {
    var es' := es + [e];
    var before := set i | 0 <= i < |es| && es[i].Touches(id);
    var after := set i | 0 <= i < |es'| && es'[i].Touches(id);
    if e.Touches(id) {
      assert after == before + {|es|};
    } else {
      assert after == before;
    }
  }

  /** `countFriends(id)`: `select count(*) from friends where p1=? or p2=?`, as a table scan. */
  method CountFriends(s: Store, id: int) returns (n: nat)
    ensures n == IncidentCount(s.friends, id)
  {
    n := 0;
    var k := 0;
    while k < |s.friends|
      invariant 0 <= k <= |s.friends|
      invariant n == IncidentCount(s.friends[..k], id)
    {
      assert s.friends[..k + 1] == s.friends[..k] + [s.friends[k]];
      IncidentCountSnoc(s.friends[..k], s.friends[k], id);
      if s.friends[k].Touches(id) {
        n := n + 1;
      }
      k := k + 1;
    }
    assert s.friends[..k] == s.friends;
  }

  /**
    The join of `person` with the rows `es` of `friends` on `(f.p1 = id and f.p2 = p.id) or
    (f.p2 = id and f.p1 = p.id)`: one row per edge touching `id` whose other end is a person.
   */
  function FriendRows(s: Store, es: seq<Edge>, id: int): (rows: seq<PersonRow>)
    ensures forall r :: r in rows ==> r.id in s.person && r == RowOf(s, r.id) && Linked(es, id, r.id)
    ensures forall p :: p in s.person && Linked(es, id, p) ==> RowOf(s, p) in rows
    decreases |es|
  {
    if |es| == 0 then []
    else
      var e := es[|es| - 1];
      var init := es[..|es| - 1];
      assert es == init + [e];
      var rest := FriendRows(s, init, id);
      if e.Touches(id) && e.Other(id) in s.person then rest + [RowOf(s, e.Other(id))] else rest
  }

  /** `GET /api/getFriends/:ownId`, read as an integer id. */
  function GetFriends(s: Store, ownId: int): (rows: seq<PersonRow>)
    ensures forall r :: r in rows ==> r.id in s.person && r == RowOf(s, r.id) && Linked(s.friends, ownId, r.id)
    ensures forall p :: p in s.person && Linked(s.friends, ownId, p) ==> RowOf(s, p) in rows
  {
    FriendRows(s, s.friends, ownId)
  }

  lemma {:induction false} FriendRowsCount(s: Store, es: seq<Edge>, id: int)
    requires forall e :: e in es ==> e.p1 in s.person && e.p2 in s.person
    ensures |FriendRows(s, es, id)| == IncidentCount(es, id)
    decreases |es|
  {
    if |es| > 0 {
      var e := es[|es| - 1];
      var init := es[..|es| - 1];
      assert es == init + [e];
      FriendRowsCount(s, init, id);
      IncidentCountSnoc(init, e, id);
    }
  }

  /** With every edge referring to persons, `getFriends` returns as many rows as `countFriends` counts. */
  lemma GetFriendsMatchesCount(s: Store, id: int)
    requires s.Valid()
    ensures |GetFriends(s, id)| == IncidentCount(s.friends, id)
  {
    FriendRowsCount(s, s.friends, id);
  }

  /** No person appears twice among the rows. */
  predicate DistinctIds(rows: seq<PersonRow>)
  {
    forall i, j :: 0 <= i < j < |rows| ==> rows[i].id != rows[j].id
  }

  lemma {:induction false} FriendRowsDistinct(s: Store, es: seq<Edge>, id: int)
    requires DistinctRows(es) && OneOrientation(es)
    ensures DistinctIds(FriendRows(s, es, id))
    decreases |es|
  {
    if |es| > 0 {
      var e := es[|es| - 1];
      var init := es[..|es| - 1];
      assert es == init + [e];
      FriendRowsDistinct(s, init, id);
      var rest := FriendRows(s, init, id);
      if e.Touches(id) && e.Other(id) in s.person {
        var o := e.Other(id);
        // an earlier row for `o` would be this edge again, or this edge reversed
        assert RowOf(s, o) !in rest;
        var rows := rest + [RowOf(s, o)];
        assert FriendRows(s, es, id) == rows;
        forall i, j | 0 <= i < j < |rows|
          ensures rows[i].id != rows[j].id
        {
          if j == |rows| - 1 {
            assert rows[i] == rest[i];
            assert rest[i] in rest;
            assert rest[i] == RowOf(s, rest[i].id);
          } else {
            assert rows[i] == rest[i] && rows[j] == rest[j];
          }
        }
      } else {
        assert FriendRows(s, es, id) == rest;
      }
    }
  }

  /** When no friendship is stored twice, `getFriends` lists every friend exactly once. */
  lemma GetFriendsDistinct(s: Store, id: int)
    requires s.Valid() && OneOrientation(s.friends)
    ensures DistinctIds(GetFriends(s, id))
  {
    FriendRowsDistinct(s, s.friends, id);
    assert GetFriends(s, id) == FriendRows(s, s.friends, id);
  }

  /** Friendship read through `getFriends` is symmetric whichever orientation the row was stored in. */
  lemma FriendshipSymmetric(s: Store, a: int, b: int)
    requires a in s.person && b in s.person
    ensures RowOf(s, b) in GetFriends(s, a) <==> RowOf(s, a) in GetFriends(s, b)
  {
    if RowOf(s, b) in GetFriends(s, a) {
      assert Linked(s.friends, a, RowOf(s, b).id);
    }
    if RowOf(s, a) in GetFriends(s, b) {
      assert Linked(s.friends, b, RowOf(s, a).id);
    }
  }
}
