/**
 * The REST backend: the `persons` table and the route handlers over it.
 *
 * The table (`id INT AUTO_INCREMENT PRIMARY KEY, name VARCHAR(255) NOT NULL,
 * email VARCHAR(255) NOT NULL`) is a map from id to person together with the
 * auto-increment counter. Each handler runs one parameterised statement and
 * turns its result into a response; the state of the database connection at
 * that moment is a parameter, since a lost connection is the storage failure
 * the model cannot otherwise produce.
 */
module PersonApi {
  import opened Wrappers

  /** The largest value of a signed 32-bit `INT` column. */
  const MaxId := 2147483647
  /** The declared width of both `VARCHAR(255)` columns, in characters. */
  const MaxLength := 255

  datatype Person = Person(name: string, email: string)

  /** A row as `SELECT *` returns it. */
  datatype Row = Row(id: int, name: string, email: string)

  datatype Store = Store(rows: map<int, Person>, nextId: int)

  /** The table as `CREATE TABLE` leaves it: no rows, the counter at 1. */
  const EmptyStore := Store(map[], 1)

  predicate Fits(p: Person)
  {
    |p.name| <= MaxLength && |p.email| <= MaxLength
  }

  /** What the table guarantees: every id was drawn from the counter (so it
      lies below it) and every stored value fits its column. */
  predicate Valid(s: Store)
  {
    && 1 <= s.nextId <= MaxId + 1
    && forall id | id in s.rows :: 1 <= id < s.nextId && Fits(s.rows[id])
  }

  /** The freshly created table satisfies the invariant every route keeps. */
  lemma EmptyStoreValid()
    ensures Valid(EmptyStore)
  {
  }

  function RowOf(id: int, p: Person): Row
  {
    Row(id, p.name, p.email)
  }

  datatype Connection = Connected | Lost(reason: string)

  /** The storage failures the handlers can meet. */
  datatype SqlError =
    | Unavailable(reason: string)
    | ColumnCannotBeNull(column: string)
    | DataTooLong(column: string)
    | DuplicateEntry(id: int)

  /** The message the driver reports for each failure. */
  function ErrorText(e: SqlError): string
  {
    match e
    case Unavailable(reason) => reason
    case ColumnCannotBeNull(column) => "Column '" + column + "' cannot be null"
    case DataTooLong(column) => "Data too long for column '" + column + "' at row 1"
    case DuplicateEntry(id) => "Duplicate entry '" + Decimal(id) + "' for key 'PRIMARY'"
  }

  /** The decimal digits of `n`, as MySQL prints an integer in a message. */
  function Decimal(n: int): string
    decreases if n < 0 then 1 - n else n
  {
    if n < 0 then "-" + Decimal(-n)
    else if n < 10 then ["0123456789"[n]]
    else Decimal(n / 10) + ["0123456789"[n % 10]]
  }

  /** A JSON request body `{ name, email }`; a missing field is `undefined`
      and reaches the statement as `NULL`. */
  datatype Body = Body(name: Option<string>, email: Option<string>)

  datatype Response =
    | Message(text: string)
    | Created(id: int)
    | Found(row: Row)
    | EmptyObject
    | Listing(rows: seq<Row>)
    | ServerError(error: string)

  function StatusCode(r: Response): int
  {
    match r
    case Created(_) => 201
    case ServerError(_) => 500
    case _ => 200
  }

  const HealthMessage := "API is working"
  const UpdatedMessage := "Updated"
  const DeletedMessage := "Deleted"

  /** A value a `VARCHAR(255)` column takes: whatever lies past the width is
      spaces only, which MySQL drops (with a note, in every SQL mode). */
  predicate Storable(x: string)
  {
    forall i | MaxLength <= i < |x| :: x[i] == ' '
  }

  /** The column constraints on one value, `NOT NULL` first, then the width;
      on success, the value as stored. */
  function ColumnCheck(column: string, v: Option<string>): (r: Result<string, SqlError>)
    ensures r.Success? <==> v.Some? && Storable(v.value)
    ensures v.None? ==> r == Failure(ColumnCannotBeNull(column))
    ensures v.Some? && !Storable(v.value) ==> r == Failure(DataTooLong(column))
    ensures r.Success? ==> |r.value| <= MaxLength && r.value <= v.value
    ensures r.Success? ==> forall i | |r.value| <= i < |v.value| :: v.value[i] == ' '
    ensures r.Success? && |v.value| <= MaxLength ==> r.value == v.value
    ensures r.Success? && MaxLength < |v.value| ==> r.value == v.value[..MaxLength]
  {
    match v
    case None => Failure(ColumnCannotBeNull(column))
    case Some(x) =>
      if |x| <= MaxLength then Success(x)
      else if Storable(x) then Success(x[..MaxLength])
      else Failure(DataTooLong(column))
  }

  /** The constraints on a body, in column order: `name`, then `email`; on
      success, the person as stored. */
  function BodyCheck(b: Body): (r: Result<Person, SqlError>)
    ensures r.Success? <==> b.name.Some? && b.email.Some? && Storable(b.name.value) && Storable(b.email.value)
    ensures r.Success? ==> Fits(r.value)
    ensures r.Success? ==> r.value == Person(ColumnCheck("name", b.name).value, ColumnCheck("email", b.email).value)
    ensures ColumnCheck("name", b.name).Failure? ==> r == Failure(ColumnCheck("name", b.name).error)
    ensures ColumnCheck("name", b.name).Success? && ColumnCheck("email", b.email).Failure? ==>
      r == Failure(ColumnCheck("email", b.email).error)
  {
    match ColumnCheck("name", b.name)
    case Failure(e) => Failure(e)
    case Success(name) =>
      match ColumnCheck("email", b.email)
      case Failure(e) => Failure(e)
      case Success(email) => Success(Person(name, email))
  }

  /** `GET /api/person/:id`: the row, or `{}` when there is none. */
  function GetPerson(s: Store, conn: Connection, id: int): (r: Response)
    ensures StatusCode(r) == 500 <==> conn.Lost?
    ensures conn.Lost? ==> r == ServerError(conn.reason)
    ensures r.Found? <==> conn.Connected? && id in s.rows
    ensures r.Found? ==> r.row.id == id && s.rows[id] == Person(r.row.name, r.row.email)
    ensures r.EmptyObject? <==> conn.Connected? && id !in s.rows
  {
    match conn
    case Lost(reason) => ServerError(ErrorText(Unavailable(reason)))
    case Connected => if id in s.rows then Found(RowOf(id, s.rows[id])) else EmptyObject
  }

  /** The id `AUTO_INCREMENT` hands out next. InnoDB's counter stops at the
      column's maximum, so once exhausted it hands out `MaxId` again. */
  function NextId(s: Store): int
  {
    if s.nextId <= MaxId then s.nextId else MaxId
  }

  /** `POST /api/person`: inserts under the counter's value and answers with
      the new id; a constraint violation, a taken id or a lost connection
      answers 500 with the error's message and leaves the table alone. */
  function CreatePerson(s: Store, conn: Connection, b: Body): (r: (Store, Response))
    ensures r.1.Created? <==>
      conn.Connected? && BodyCheck(b).Success? && NextId(s) !in s.rows
    ensures !r.1.Created? ==> r.0 == s && r.1.ServerError?
    ensures conn.Lost? ==> r == (s, ServerError(conn.reason))
    ensures conn.Connected? && BodyCheck(b).Failure? ==> r == (s, ServerError(ErrorText(BodyCheck(b).error)))
    ensures conn.Connected? && BodyCheck(b).Success? && NextId(s) in s.rows ==>
      r == (s, ServerError(ErrorText(DuplicateEntry(NextId(s)))))
    ensures r.1.Created? ==>
      && StatusCode(r.1) == 201
      && r.1.id !in s.rows
      && r.0.rows == s.rows[r.1.id := BodyCheck(b).value]
      && r.1.id <= MaxId && r.0.nextId == r.1.id + 1
      && (s.nextId <= MaxId ==> r.1.id == s.nextId)
      && (MaxId < s.nextId ==> r.1.id == MaxId)
    ensures r.1.Created? && Fits(Person(b.name.value, b.email.value)) ==>
      r.0.rows[r.1.id] == Person(b.name.value, b.email.value)
    ensures Valid(s) ==> Valid(r.0)
  {
    match conn
    case Lost(reason) => (s, ServerError(ErrorText(Unavailable(reason))))
    case Connected =>
      match BodyCheck(b)
      case Failure(e) => (s, ServerError(ErrorText(e)))
      case Success(p) =>
        var id := NextId(s);
        if id in s.rows then
          (s, ServerError(ErrorText(DuplicateEntry(id))))
        else
          (Store(s.rows[id := p], id + 1), Created(id))
  }

  /** `PUT /api/person/:id`: overwrites name and e-mail of a present row
      (checking the column constraints on it) and answers `Updated`; with no
      matching row no value is stored, so nothing is checked or changed and
      the answer is still `Updated`. */
  function UpdatePerson(s: Store, conn: Connection, id: int, b: Body): (r: (Store, Response))
    ensures conn.Lost? ==> r == (s, ServerError(conn.reason))
    ensures conn.Connected? && id !in s.rows ==> r == (s, Message(UpdatedMessage))
    ensures conn.Connected? && id in s.rows ==>
      if BodyCheck(b).Success? then
        && r.1 == Message(UpdatedMessage)
        && r.0.nextId == s.nextId
        && r.0.rows.Keys == s.rows.Keys
        && r.0.rows[id] == BodyCheck(b).value
        && forall k | k in s.rows && k != id :: r.0.rows[k] == s.rows[k]
      else
        r == (s, ServerError(ErrorText(BodyCheck(b).error)))
    ensures
      (conn.Connected? && id in s.rows && b.name.Some? && b.email.Some?
       && Fits(Person(b.name.value, b.email.value))) ==>
      r.0.rows[id] == Person(b.name.value, b.email.value)
    ensures Valid(s) ==> Valid(r.0)
  {
    match conn
    case Lost(reason) => (s, ServerError(ErrorText(Unavailable(reason))))
    case Connected =>
      if id !in s.rows then
        (s, Message(UpdatedMessage))
      else
        match BodyCheck(b)
        case Failure(e) => (s, ServerError(ErrorText(e)))
        case Success(p) => (s.(rows := s.rows[id := p]), Message(UpdatedMessage))
  }

  /** A value one space longer than the column is stored cut to the column:
      the create succeeds and get returns the first 255 characters. */
  lemma TrailingSpaceTrimmed(s: Store, name: string, email: string)
    requires NextId(s) !in s.rows && |name| == MaxLength && |email| <= MaxLength
    ensures var (s1, r1) := CreatePerson(s, Connected, Body(Some(name + " "), Some(email)));
      r1.Created? && GetPerson(s1, Connected, r1.id) == Found(Row(r1.id, name, email))
  {
    assert (name + " ")[..MaxLength] == name;
  }

  /** One non-space character past the column makes the create fail. */
  lemma OverlongValueRejected(s: Store, name: string, email: string)
    requires |name| == MaxLength && |email| <= MaxLength
    ensures var (s1, r1) := CreatePerson(s, Connected, Body(Some(name + "x"), Some(email)));
      s1 == s && r1 == ServerError("Data too long for column 'name' at row 1")
  {
    assert (name + "x")[MaxLength] == 'x';
  }

  /** `DELETE /api/person/:id`: removes the row if there is one and answers
      `Deleted` either way; the counter is not rewound. */
  function DeletePerson(s: Store, conn: Connection, id: int): (r: (Store, Response))
    ensures conn.Lost? ==> r == (s, ServerError(conn.reason))
    ensures conn.Connected? ==> r.1 == Message(DeletedMessage) && r.0.nextId == s.nextId
    ensures conn.Connected? ==> id !in r.0.rows && r.0.rows.Keys == s.rows.Keys - {id}
    ensures conn.Connected? ==> forall k | k in r.0.rows :: r.0.rows[k] == s.rows[k]
    ensures conn.Connected? && id !in s.rows ==> r.0 == s
    ensures Valid(s) ==> Valid(r.0)
  {
    match conn
    case Lost(reason) => (s, ServerError(ErrorText(Unavailable(reason))))
    case Connected => (s.(rows := s.rows - {id}), Message(DeletedMessage))
  }

  /** The ids a listing mentions. */
  function IdsOf(out: seq<Row>): set<int>
  {
    set i | 0 <= i < |out| :: out[i].id
  }

  /** `out` lists every row of the table exactly once, in some order. */
  predicate Enumerates(rows: map<int, Person>, out: seq<Row>)
  {
    && IdsOf(out) == rows.Keys
    && (forall i | 0 <= i < |out| :: out[i].id in rows && out[i] == RowOf(out[i].id, rows[out[i].id]))
    && (forall i, j | 0 <= i < j < |out| :: out[i].id != out[j].id)
  }

  /** `ListPersons` picks the next id from a non-empty set with `:|`, which
      needs the set's membership stated as an existential first. */
  lemma HasMember(xs: set<int>)
    requires xs != {}
    ensures exists x :: x in xs
  {
    if forall x :: x !in xs {
      assert false;
    }
  }

  /** `GET /api/person`: `SELECT *` without `ORDER BY`, so the rows come in
      no promised order; the loop takes them in an arbitrary one. */
  method ListPersons(s: Store, conn: Connection) returns (r: Response)
    ensures conn.Lost? ==> r == ServerError(conn.reason)
    ensures conn.Connected? ==> r.Listing? && Enumerates(s.rows, r.rows)
  {
    if conn.Lost? {
      return ServerError(ErrorText(Unavailable(conn.reason)));
    }
    var out: seq<Row> := [];
    var pending := s.rows.Keys;
    while pending != {}
      invariant pending <= s.rows.Keys
      invariant IdsOf(out) == s.rows.Keys - pending
      invariant forall i | 0 <= i < |out| :: out[i].id in s.rows && out[i] == RowOf(out[i].id, s.rows[out[i].id])
      invariant forall i, j | 0 <= i < j < |out| :: out[i].id != out[j].id
      decreases pending
    {
      HasMember(pending);
      var id :| id in pending;
      assert id !in IdsOf(out);
      var next := out + [RowOf(id, s.rows[id])];
      assert IdsOf(next) == IdsOf(out) + {id} by {
        assert forall i | 0 <= i < |out| :: next[i] == out[i];
        assert next[|out|].id == id;
      }
      out := next;
      pending := pending - {id};
    }
    return Listing(out);
  }

  /** A sequence of rows with pairwise different ids mentions as many ids
      as it has rows. */
  lemma {:induction false} DistinctIdsCount(out: seq<Row>)
    requires forall i, j | 0 <= i < j < |out| :: out[i].id != out[j].id
    ensures |IdsOf(out)| == |out|
  {
    if out != [] {
      var front := out[..|out| - 1];
      var last := out[|out| - 1];
      assert forall i | 0 <= i < |front| :: front[i] == out[i];
      DistinctIdsCount(front);
      assert IdsOf(out) == IdsOf(front) + {last.id};
      assert last.id !in IdsOf(front);
    }
  }

  /** A listing holds as many rows as the table. */
  lemma ListingLength(rows: map<int, Person>, out: seq<Row>)
    requires Enumerates(rows, out)
    ensures |out| == |rows|
  {
    DistinctIdsCount(out);
    assert |rows| == |rows.Keys|;
  }

  datatype Request =
    | Health
    | ListAll
    | GetById(id: int)
    | Post(body: Body)
    | Put(id: int, body: Body)
    | Remove(id: int)

  /** The routing table. The health route never touches the database; every
      other route reports a lost connection as a 500 carrying its message,
      and no failure changes the table. */
  method Handle(s: Store, conn: Connection, req: Request) returns (s': Store, r: Response)
    ensures req.Health? ==> s' == s && r == Message(HealthMessage) && StatusCode(r) == 200
    ensures !req.Health? && conn.Lost? ==> s' == s && r == ServerError(conn.reason)
    ensures StatusCode(r) == 500 ==> s' == s && r.ServerError?
    ensures req.ListAll? || req.GetById? ==> s' == s
    ensures req.ListAll? && conn.Connected? ==> r.Listing? && Enumerates(s.rows, r.rows)
    ensures req.GetById? ==> r == GetPerson(s, conn, req.id)
    ensures req.Post? ==> (s', r) == CreatePerson(s, conn, req.body)
    ensures req.Put? ==> (s', r) == UpdatePerson(s, conn, req.id, req.body)
    ensures req.Remove? ==> (s', r) == DeletePerson(s, conn, req.id)
    ensures Valid(s) ==> Valid(s')
  {
    match req
    case Health =>
      s', r := s, Message(HealthMessage);
    case ListAll =>
      s' := s;
      r := ListPersons(s, conn);
    case GetById(id) =>
      s', r := s, GetPerson(s, conn, id);
    case Post(body) =>
      var t := CreatePerson(s, conn, body);
      s', r := t.0, t.1;
    case Put(id, body) =>
      var t := UpdatePerson(s, conn, id, body);
      s', r := t.0, t.1;
    case Remove(id) =>
      var t := DeletePerson(s, conn, id);
      s', r := t.0, t.1;
  }

  /** Create followed by get on the returned id yields what was sent. */
  lemma CreateThenGet(s: Store, name: string, email: string)
    requires NextId(s) !in s.rows && Fits(Person(name, email))
    ensures var (s1, r1) := CreatePerson(s, Connected, Body(Some(name), Some(email)));
      r1.Created? && GetPerson(s1, Connected, r1.id) == Found(Row(r1.id, name, email))
  {
  }

  /** An update of a present row is seen by the next get. */
  lemma UpdateThenGet(s: Store, id: int, name: string, email: string)
    requires id in s.rows && Fits(Person(name, email))
    ensures var (s1, r1) := UpdatePerson(s, Connected, id, Body(Some(name), Some(email)));
      r1 == Message(UpdatedMessage) && GetPerson(s1, Connected, id) == Found(Row(id, name, email))
  {
  }

  /** After a delete, get on that id answers the empty object. */
  lemma DeleteThenGet(s: Store, id: int)
    ensures GetPerson(DeletePerson(s, Connected, id).0, Connected, id) == EmptyObject
  {
  }

  /** A request with a field missing is refused and stores nothing. A
      missing name draws the `NOT NULL` message for `name`; a missing e-mail
      draws it for `email` unless the name is refused first for its width. */
  lemma MissingFieldRejected(s: Store, b: Body)
    requires b.name.None? || b.email.None?
    ensures var (s1, r1) := CreatePerson(s, Connected, b);
      && s1 == s && StatusCode(r1) == 500
      && (b.name.None? ==> r1 == ServerError("Column 'name' cannot be null"))
      && (b.name.Some? && Storable(b.name.value) ==> r1 == ServerError("Column 'email' cannot be null"))
      && (b.name.Some? && !Storable(b.name.value) ==> r1 == ServerError("Data too long for column 'name' at row 1"))
  {
    var r1 := CreatePerson(s, Connected, b).1;
    if b.name.None? {
      assert r1 == ServerError(ErrorText(ColumnCannotBeNull("name")));
      assert ErrorText(ColumnCannotBeNull("name")) == "Column 'name' cannot be null";
    } else if Storable(b.name.value) {
      assert r1 == ServerError(ErrorText(ColumnCannotBeNull("email")));
      assert ErrorText(ColumnCannotBeNull("email")) == "Column 'email' cannot be null";
    } else {
      assert r1 == ServerError(ErrorText(DataTooLong("name")));
      assert ErrorText(DataTooLong("name")) == "Data too long for column 'name' at row 1";
    }
  }

  /** A deleted id below the column maximum is never handed out again. */
  lemma DeletedIdNotReused(s: Store, id: int, b: Body)
    requires Valid(s) && id in s.rows && id < MaxId
    ensures var s1 := DeletePerson(s, Connected, id).0;
      var r2 := CreatePerson(s1, Connected, b).1;
      r2.Created? ==> r2.id != id
  {
  }

  /** The column maximum as it appears in a message. */
  lemma DecimalOfMaxId()
    ensures Decimal(MaxId) == "2147483647"
  {
    assert Decimal(2) == "2";
    assert Decimal(21) == "21";
    assert Decimal(214) == "214";
    assert Decimal(2147) == "2147";
    assert Decimal(21474) == "21474";
    assert Decimal(214748) == "214748";
    assert Decimal(2147483) == "2147483";
    assert Decimal(21474836) == "21474836";
    assert Decimal(214748364) == "214748364";
    assert Decimal(MaxId) == "2147483647";
  }

  /** The message of a duplicate `MaxId`. */
  lemma DuplicateMaxIdText(id: int)
    requires id == MaxId
    ensures ErrorText(DuplicateEntry(id)) == "Duplicate entry '2147483647' for key 'PRIMARY'"
  {
    DecimalOfMaxId();
    QuotedEntry(Decimal(id));
  }

  /** The message text once the id is printed. */
  lemma QuotedEntry(d: string)
    requires d == "2147483647"
    ensures "Duplicate entry '" + d + "' for key 'PRIMARY'" == "Duplicate entry '2147483647' for key 'PRIMARY'"
  {
  }

  /** Once the counter is exhausted, the next create is given `MaxId` again:
      it fails with a duplicate key while that row exists, and reuses the id
      once the row is deleted. */
  lemma ExhaustedCounterReusesMaxId(s: Store, b: Body)
    requires Valid(s) && s.nextId == MaxId + 1 && BodyCheck(b).Success?
    ensures MaxId in s.rows ==>
      CreatePerson(s, Connected, b) == (s, ServerError("Duplicate entry '2147483647' for key 'PRIMARY'"))
    ensures var s1 := DeletePerson(s, Connected, MaxId).0;
      CreatePerson(s1, Connected, b).1 == Created(MaxId)
  {
    DuplicateMaxIdText(MaxId);
    assert NextId(s) == MaxId;
    var s1 := DeletePerson(s, Connected, MaxId).0;
    assert NextId(s1) == MaxId && MaxId !in s1.rows;
  }

  /** After a successful create, the listing is not empty. */
  lemma ListAfterCreate(s: Store, b: Body, out: seq<Row>)
    requires CreatePerson(s, Connected, b).1.Created?
    requires Enumerates(CreatePerson(s, Connected, b).0.rows, out)
    ensures |out| >= 1
  {
    var (s1, r1) := CreatePerson(s, Connected, b);
    assert r1.id in IdsOf(out);
  }

  /** The create, get, update, get, delete, get round of the backend's
      end-to-end test, from any table whose next id is free. The round leaves
      every other row as it was. */
  lemma CrudScenario(s: Store)
    requires NextId(s) !in s.rows
    ensures
      var (s1, r1) := CreatePerson(s, Connected, Body(Some("John Doe"), Some("john@example.com")));
      && StatusCode(r1) == 201 && r1.Created?
      && var id := r1.id;
      && GetPerson(s1, Connected, id) == Found(Row(id, "John Doe", "john@example.com"))
      && var (s2, r2) := UpdatePerson(s1, Connected, id, Body(Some("Jane Doe"), Some("jane@example.com")));
      && r2 == Message(UpdatedMessage) && StatusCode(r2) == 200
      && GetPerson(s2, Connected, id) == Found(Row(id, "Jane Doe", "jane@example.com"))
      && var (s3, r3) := DeletePerson(s2, Connected, id);
      && r3 == Message(DeletedMessage) && StatusCode(r3) == 200
      && GetPerson(s3, Connected, id) == EmptyObject
      && s3.rows == s.rows
  {
    var (s1, r1) := CreatePerson(s, Connected, Body(Some("John Doe"), Some("john@example.com")));
    var (s2, r2) := UpdatePerson(s1, Connected, r1.id, Body(Some("Jane Doe"), Some("jane@example.com")));
    var (s3, r3) := DeletePerson(s2, Connected, r1.id);
    assert s3.rows == s.rows;
  }
}
