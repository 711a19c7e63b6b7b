/** `POST /api/createAccount`: a person row and its account row, committed together or not at all. */
module Accounts {
  import opened Wrappers
  import opened Store
  import opened Http
  import Auth

  /** The submitted form; `age` is taken as already converted to an integer. */
  datatype AccountForm = AccountForm(
    userName: string, password: string, passwordRepeat: string,
    name: string, mail: string, age: int)

  /** The check made before any connection is taken: a non-empty password, typed twice alike. */
  predicate PasswordsAgree(form: AccountForm)
  {
    form.password != [] && form.password == form.passwordRepeat
  }

  /** Everything the two inserts and the commit need to succeed. */
  predicate CanCreate(s: Store, env: Env, form: AccountForm)
  {
    && PasswordsAgree(form)
    && env.reachable && env.commitSucceeds
    && s.nextPersonId <= IntMax
    && PersonFits(Person(form.name, form.mail, form.age))
    && UserFits(form.userName, User(form.password, 0, s.nextPersonId))
    && form.userName !in s.user
  }

  function CreateAccount(s: Store, sess: Session, env: Env, form: AccountForm): (o: Outcome)
    ensures o.session == sess
    ensures !PasswordsAgree(form) ==> o.store == s && o.response == Response(403, Text("Password does not match"))
    ensures o.response.status == 403 <==> !PasswordsAgree(form)
    ensures o.response.status == 302 <==> CanCreate(s, env, form)
    ensures o.response.status != 302 ==> SameRows(o.store, s) && o.response.status in {403, 500}
    ensures o.response.status == 302 ==>
              var id := s.nextPersonId;
              && o.store.person == s.person[id := Person(form.name, form.mail, form.age)]
              && o.store.user == s.user[form.userName := User(form.password, 0, id)]
              && o.store.friends == s.friends
              && o.store.forum == s.forum
  {
    if !PasswordsAgree(form) then
      Outcome(s, sess, Response(403, Text("Password does not match")))
    else if !env.reachable then
      Outcome(s, sess, Response(500, DbFailure(Unavailable)))
    else
      // beginTransaction: `s` is the snapshot a rollback returns to
      var personId := s.nextPersonId;
      match InsertPerson(s, Person(form.name, form.mail, form.age))
      case Err(e) => Outcome(Rollback(s, s), sess, Response(500, DbFailure(e)))
      case Ok(s1) =>
        match InsertUser(s1, form.userName, User(form.password, 0, personId))
        case Err(e) => Outcome(Rollback(s, s1), sess, Response(500, DbFailure(e)))
        case Ok(s2) =>
          if env.commitSucceeds then Outcome(s2, sess, Response(302, RedirectHome))
          else Outcome(Rollback(s, s2), sess, Response(500, DbFailure(CommitFailed)))
  }

  /**
    Atomicity: either exactly one person and one account are added, linked to each other,
    or no table changes (a duplicate username rolls back the person row already inserted).
   */
  lemma CreateAccountAtomic(s: Store, sess: Session, env: Env, form: AccountForm)
    requires s.Valid()
    ensures var o := CreateAccount(s, sess, env, form);
            || SameRows(o.store, s)
            || (&& |o.store.person| == |s.person| + 1
                && |o.store.user| == |s.user| + 1
                && o.store.person.Keys - s.person.Keys == {o.store.user[form.userName].personId}
                && o.store.user.Keys - s.user.Keys == {form.userName}
                && o.store.user[form.userName].admin == 0)
  {
    var o := CreateAccount(s, sess, env, form);
    if o.response.status == 302 {
      var id := s.nextPersonId;
      assert id !in s.person;
      AddFreshKey(s.person, id, Person(form.name, form.mail, form.age));
      AddFreshKey(s.user, form.userName, User(form.password, 0, id));
    }
  }

  /** Adding a key a map does not hold adds exactly that key. */
  lemma AddFreshKey<K, V>(m: map<K, V>, k: K, v: V)
    requires k !in m
    ensures |m[k := v]| == |m| + 1
    ensures m[k := v].Keys - m.Keys == {k}
  {
    assert m[k := v].Keys == m.Keys + {k};
  }

  /** A name already taken makes the whole transaction fail without touching any table. */
  lemma DuplicateUserNameChangesNothing(s: Store, sess: Session, env: Env, form: AccountForm)
    requires form.userName in s.user
    ensures var o := CreateAccount(s, sess, env, form);
            SameRows(o.store, s) && o.response.status != 302
  {
  }

  lemma CreateAccountPreservesValid(s: Store, sess: Session, env: Env, form: AccountForm)
    requires s.Valid()
    ensures CreateAccount(s, sess, env, form).store.Valid()
  {
    var o := CreateAccount(s, sess, env, form);
    if o.response.status == 302 {
      var id := s.nextPersonId;
      forall name | name in o.store.user
        ensures o.store.user[name].personId in o.store.person
      {
        if name != form.userName {
          assert o.store.user[name] == s.user[name];
        }
      }
    }
  }

  /**
    Round trip: right after an account is created, logging in with the same name and password
    succeeds and yields the submitted person data, without admin rights.
   */
  lemma CreateThenLogin(s: Store, sess: Session, env: Env, form: AccountForm, env2: Env)
    requires CreateAccount(s, sess, env, form).response.status == 302
    requires env2.reachable
    ensures var o := CreateAccount(s, sess, env, form);
            var l := Auth.Login(o.store, o.session, env2, form.userName, form.password);
            && l.response.status == 200
            && l.session.authInfo == Some(AuthInfo(s.nextPersonId, form.userName, form.name, form.mail, form.age, false))
  {
  }
}
