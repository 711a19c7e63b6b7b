/**
  The relational store behind the server: the four tables that `resetDatabase` creates
  (person, user, friends, forum), the constraints their DDL declares, and the effect the
  engine gives each INSERT the request handlers issue. MySQL is assumed to run in strict
  mode, so a value that does not fit its column is an error rather than a truncation.
 */
module Store {
  import opened Wrappers

  /** `username VARCHAR(64)` */
  const UserNameWidth: nat := 64
  /** every other `VARCHAR(255)` column */
  const VarcharWidth: nat := 255
  /** the range of an SQL `INT` column */
  const IntMin: int := -0x8000_0000
  const IntMax: int := 0x7FFF_FFFF

  /** A row of `person`, without its AUTO_INCREMENT key. */
  datatype Person = Person(name: string, mail: string, age: int)

  /** A row of `user`, without its primary key `username`; `personId` has no foreign key. */
  datatype User = User(password: string, admin: int, personId: int)

  /** A row of `friends`: an ordered pair of person ids, itself the primary key. */
  datatype Edge = Edge(p1: int, p2: int)
  {
    /** The row matches `p1 = id or p2 = id`. */
    predicate Touches(id: int)
    {
      p1 == id || p2 == id
    }

    /** The end of an edge touching `id` that is reached from `id` (`id` itself for a self-edge). */
    function Other(id: int): int
      requires Touches(id)
    {
      if p1 == id then p2 else p1
    }
  }

  /** A row of `forum`; `ts` is the database-assigned timestamp. */
  datatype Post = Post(id: int, username: string, ts: int, message: string)

  /** Why the database refused a statement or a connection. */
  datatype DbError =
    | Unavailable          // no connection could be obtained or the query could not be sent
    | DuplicateKey         // a primary-key clash
    | ForeignKeyViolation  // a referenced row is missing
    | ValueTooLarge        // a string longer than its VARCHAR, an integer outside INT
    | IdsExhausted         // the AUTO_INCREMENT column has no value left in INT
    | CommitFailed         // COMMIT was refused (the adapter then rolls back)

  datatype Store = Store(
    person: map<int, Person>,
    user: map<string, User>,
    friends: seq<Edge>,
    forum: seq<Post>,
    nextPersonId: int,   // the next AUTO_INCREMENT value of person.id
    nextPostId: int)     // the next AUTO_INCREMENT value of forum.id
  {
    /** What the schema guarantees, plus the one link (user.personId -> person.id) the handlers keep. */
    ghost predicate Valid()
    {
      && 1 <= nextPersonId <= IntMax + 1
      && 1 <= nextPostId <= IntMax + 1
      && (forall id :: id in person ==> 1 <= id < nextPersonId)
      && (forall name :: name in user ==> user[name].personId in person)
      && DistinctRows(friends)
      && (forall e :: e in friends ==> e.p1 in person && e.p2 in person)
      && (forall i, j :: 0 <= i < j < |forum| ==> forum[i].id < forum[j].id)
      && (forall p :: p in forum ==> 1 <= p.id < nextPostId && p.username in user)
    }
  }

  /** The freshly reset database. */
  const Empty: Store := Store(map[], map[], [], [], 1, 1)

  /** No two rows of the table are equal (the primary key of `friends`). */
  ghost predicate DistinctRows(es: seq<Edge>)
  {
    forall i, j :: 0 <= i < j < |es| ==> es[i] != es[j]
  }

  /** Two stores hold the same rows; they may differ only in their AUTO_INCREMENT counters. */
  predicate SameRows(a: Store, b: Store)
  {
    a.person == b.person && a.user == b.user && a.friends == b.friends && a.forum == b.forum
  }

  /** `p1` and `p2` are friends in either orientation. */
  predicate Linked(es: seq<Edge>, a: int, b: int)
  {
    Edge(a, b) in es || Edge(b, a) in es
  }

  /** The number of rows counted by `select count(*) from friends where p1=? or p2=?`. */
  ghost function IncidentCount(es: seq<Edge>, id: int): nat
  {
    |set i | 0 <= i < |es| && es[i].Touches(id)|
  }

  predicate FitsInt(n: int)
  {
    IntMin <= n <= IntMax
  }

  predicate PersonFits(p: Person)
  {
    |p.name| <= VarcharWidth && |p.mail| <= VarcharWidth && FitsInt(p.age)
  }

  predicate UserFits(name: string, u: User)
  {
    |name| <= UserNameWidth && |u.password| <= VarcharWidth && FitsInt(u.admin) && FitsInt(u.personId)
  }

  /** `insert into person (name, mail, age) values (?, ?, ?)`; the new id is `s.nextPersonId`. */
  function InsertPerson(s: Store, p: Person): Result<Store, DbError>
  {
    if s.nextPersonId > IntMax then Err(IdsExhausted)
    else if !PersonFits(p) then Err(ValueTooLarge)
    else Ok(s.(person := s.person[s.nextPersonId := p], nextPersonId := s.nextPersonId + 1))
  }

  /** `insert into user (username, password, admin, personId) values (?, ?, ?, ?)` */
  function InsertUser(s: Store, name: string, u: User): Result<Store, DbError>
  {
    if !UserFits(name, u) then Err(ValueTooLarge)
    else if name in s.user then Err(DuplicateKey)
    else Ok(s.(user := s.user[name := u]))
  }

  /** `insert into friends values (?, ?)` */
  function InsertEdge(s: Store, e: Edge): Result<Store, DbError>
  {
    if e in s.friends then Err(DuplicateKey)
    else if e.p1 !in s.person || e.p2 !in s.person then Err(ForeignKeyViolation)
    else Ok(s.(friends := s.friends + [e]))
  }

  /** `insert into forum (username, message) values (?, ?)`; id and ts are filled in by the engine. */
  function InsertPost(s: Store, username: string, message: string, now: int): Result<Store, DbError>
  {
    if s.nextPostId > IntMax then Err(IdsExhausted)
    else if username !in s.user then Err(ForeignKeyViolation)
    else Ok(s.(forum := s.forum + [Post(s.nextPostId, username, now, message)], nextPostId := s.nextPostId + 1))
  }

  /**
    ROLLBACK of a transaction begun on `snapshot` that reached `current`: every row is put
    back, but InnoDB does not give back the AUTO_INCREMENT values the transaction consumed.
   */
  function Rollback(snapshot: Store, current: Store): Store
  {
    snapshot.(nextPersonId := current.nextPersonId, nextPostId := current.nextPostId)
  }

  lemma EmptyValid()
    ensures Empty.Valid()
  {
  }
}
