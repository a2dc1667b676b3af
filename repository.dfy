/** The employee store: table `employees` with an identity column, the operations a
    `JpaRepository<Employee, Long>` gives it, and the five finders the repository declares. */
module Repository {
  import opened Base
  import opened EmployeeModel

  /** The filter a query applies to the rows.  A null argument matches no row: every text
      column is NOT NULL, so neither `= NULL` nor `IS NULL` selects anything. */
  datatype Query =
    | Everything
    | ByEmail(email: Option<string>)
    | ByName(firstName: Option<string>, lastName: Option<string>)

  predicate Matches(q: Query, r: Row) {
    match q
    case Everything => true
    case ByEmail(e) => e == Some(r.email)
    case ByName(first, last) => first == Some(r.firstName) && last == Some(r.lastName)
  }

  /** The answer of a query that promises at most one row: none, the one, or several
      (which the library reports as an error). */
  datatype Single = NoRow | OneRow(row: Row) | ManyRows

  /** The table after an operation, and what the operation returned. */
  datatype Step<R> = Step(table: Table, result: R)

  /** The entity a caller holds after `save` returned `r`: an inserted entity has received
      its generated id; otherwise the object is untouched. */
  function AfterSave(f: Fields, r: Result<Row>): (g: Fields) {
    if f.id == 0 && r.Success? then f.(id := r.value.id) else f
  }

  /** The stored rows by id, and the next value of the identity column (which starts at 1). */
  datatype Table = Table(rows: map<int, Row>, nextId: int) {

    /** Every stored id was generated (positive, below the counter) and is its row's id. */
    ghost predicate Valid() {
      && nextId >= 1
      && forall id :: id in rows ==> 1 <= id < nextId && rows[id].id == id
    }

    /** No two stored rows share an email. */
    ghost predicate EmailsUnique() {
      forall i, j :: i in rows && j in rows && rows[i].email == rows[j].email ==> i == j
    }

    /** `r` is the correct answer of single-result query `q` on this table. */
    ghost predicate Selects(q: Query, r: Single) {
      match r
      case NoRow => forall id :: id in rows ==> !Matches(q, rows[id])
      case OneRow(row) =>
        && row.id in rows && rows[row.id] == row && Matches(q, row)
        && forall id :: id in rows && Matches(q, rows[id]) ==> id == row.id
      case ManyRows =>
        exists i, j :: i in rows && j in rows && i != j && Matches(q, rows[i]) && Matches(q, rows[j])
    }

    /** The rows with id `k` or above that match `q`, in ascending id order. */
    function Scan(q: Query, k: int): (s: seq<Row>)
      decreases nextId - k
    {
      if k >= nextId then []
      else (if k in rows && Matches(q, rows[k]) then [rows[k]] else []) + Scan(q, k + 1)
    }

    /** `findById`: absence is a normal outcome. */
    function FindById(id: int): (r: Option<Row>)
      ensures r.Some? <==> id in rows
      ensures r.Some? ==> r.value == rows[id] && (Valid() ==> r.value.id == id)
    {
      if id in rows then Some(rows[id]) else None
    }

    /** `findAll`: every stored row exactly once, in ascending id order. */
    function FindAll(): (r: seq<Row>)
      requires Valid()
      ensures |r| == |rows|
      ensures forall i :: 0 <= i < |r| ==> r[i].id in rows && rows[r[i].id] == r[i]
      ensures forall id :: id in rows ==> rows[id] in r
      ensures forall i, j :: 0 <= i < j < |r| ==> r[i].id < r[j].id
    {
      ScanFacts(this, Everything, 1);
      ScanCount(this, 1);
      KeysFromOne(this);
      Scan(Everything, 1)
    }

    /** A single-result query: the answer is determined by the matching rows alone. */
    function Find(q: Query): (r: Single)
      requires Valid()
      ensures Selects(q, r)
    {
      var s := Scan(q, 1);
      ScanFacts(this, q, 1);
      if |s| == 0 then
        NoRow
      else if |s| == 1 then
        assert forall id :: id in rows && Matches(q, rows[id]) ==> rows[id] == s[0];
        OneRow(s[0])
      else
        assert s[0].id != s[1].id;
        ManyRows
    }

    /** `findByEmail`: the row holding `email`; under unique emails never several. */
    function FindByEmail(email: Option<string>): (r: Single)
      requires Valid()
      ensures Selects(ByEmail(email), r)
      ensures EmailsUnique() ==> !r.ManyRows?
    {
      Find(ByEmail(email))
    }

    /** The JPQL query with indexed parameters: the row with this first and last name. */
    function FindByJPQLIndexedParams(firstName: Option<string>, lastName: Option<string>): (r: Single)
      requires Valid()
      ensures Selects(ByName(firstName, lastName), r)
    {
      Find(ByName(firstName, lastName))
    }

    /** The JPQL query with named parameters: the same selection as the indexed one. */
    function FindByJPQLNamedParams(firstName: Option<string>, lastName: Option<string>): (r: Single)
      requires Valid()
      ensures Selects(ByName(firstName, lastName), r)
    {
      Find(ByName(firstName, lastName))
    }

    /** The native SQL query with an indexed parameter: the row holding `email`. */
    function FindByNativeSQLIndexedParam(email: Option<string>): (r: Single)
      requires Valid()
      ensures Selects(ByEmail(email), r)
    {
      Find(ByEmail(email))
    }

    /** The native SQL query with a named parameter: the row holding `email`. */
    function FindByNativeSQLNamedParam(email: Option<string>): (r: Single)
      requires Valid()
      ensures Selects(ByEmail(email), r)
    {
      Find(ByEmail(email))
    }

    /** `save`: an entity with id 0 is new and is inserted under the next identity value;
        any other id overwrites the row with that id, and fails if there is none.  A null
        text column fails.  A failure leaves the table as it was. */
    function Save(f: Fields): (s: Step<Result<Row>>)
      ensures s.result.Success? <==> Complete(f) && (f.id == 0 || f.id in rows)
      ensures s.result.Failure? ==>
        && s.table == this
        && s.result.error == (if f.id != 0 && f.id !in rows then MissingRow else NullColumn)
      ensures s.result.Success? ==>
        var row := s.result.value;
        && Some(row.firstName) == f.firstName
        && Some(row.lastName) == f.lastName
        && Some(row.email) == f.email
        && (if f.id == 0 then row.id == nextId && s.table.nextId == nextId + 1
            else row.id == f.id && s.table.nextId == nextId)
        && s.table.rows == rows[row.id := row]
      ensures Valid() ==> s.table.Valid()
      ensures Valid() && f.id == 0 && s.result.Success? ==>
        s.result.value.id > 0 && s.result.value.id !in rows
    {
      if f.id == 0 then
        if Complete(f) then
          var row := RowOf(f, nextId);
          Step(Table(rows[nextId := row], nextId + 1), Success(row))
        else
          Step(this, Failure(NullColumn))
      else if f.id !in rows then
        Step(this, Failure(MissingRow))
      else if Complete(f) then
        var row := RowOf(f, f.id);
        Step(this.(rows := rows[f.id := row]), Success(row))
      else
        Step(this, Failure(NullColumn))
    }

    /** `deleteById`: removes the row if there is one; an absent id is not an error. */
    function DeleteById(id: int): (t: Table)
      ensures t.rows.Keys == rows.Keys - {id}
      ensures forall k :: k in t.rows ==> t.rows[k] == rows[k]
      ensures t.nextId == nextId
      ensures Valid() ==> t.Valid()
      ensures EmailsUnique() ==> t.EmailsUnique()
    {
      this.(rows := rows - {id})
    }
  }

  /** The table of a freshly started store. */
  const Empty := Table(map[], 1)

  /** The ids at or above `k` that are stored. */
  ghost function KeysFrom(t: Table, k: int): (ids: set<int>) {
    set id | id in t.rows && id >= k
  }

  lemma KeysFromOne(t: Table)
    requires t.Valid()
    ensures KeysFrom(t, 1) == t.rows.Keys
  {
  }

  /** What `Scan` lists: exactly the matching stored rows at or above `k`. */
  lemma {:induction false} ScanMembers(t: Table, q: Query, k: int)
    requires t.Valid()
    ensures forall r :: r in t.Scan(q, k) <==> r.id >= k && r.id in t.rows && t.rows[r.id] == r && Matches(q, r)
    decreases t.nextId - k
  {
    if k < t.nextId {
      ScanMembers(t, q, k + 1);
      var head := if k in t.rows && Matches(q, t.rows[k]) then [t.rows[k]] else [];
      assert t.Scan(q, k) == head + t.Scan(q, k + 1);
      forall r ensures r in t.Scan(q, k) <==> r.id >= k && r.id in t.rows && t.rows[r.id] == r && Matches(q, r) {
        assert r in t.Scan(q, k) <==> r in head || r in t.Scan(q, k + 1);
      }
    }
  }

  /** `Scan` lists its rows in strictly ascending id order. */
  lemma {:induction false} ScanSorted(t: Table, q: Query, k: int)
    requires t.Valid()
    ensures forall i, j :: 0 <= i < j < |t.Scan(q, k)| ==> t.Scan(q, k)[i].id < t.Scan(q, k)[j].id
    decreases t.nextId - k
  {
    if k < t.nextId {
      ScanSorted(t, q, k + 1);
      ScanMembers(t, q, k + 1);
      var head := if k in t.rows && Matches(q, t.rows[k]) then [t.rows[k]] else [];
      var rest := t.Scan(q, k + 1);
      var s := t.Scan(q, k);
      assert s == head + rest;
      forall i, j | 0 <= i < j < |s| ensures s[i].id < s[j].id {
        if i < |head| {
          assert s[i] == t.rows[k] && s[i].id == k;
          assert s[j] == rest[j - |head|];
          assert s[j] in rest;
        } else {
          assert s[i] == rest[i - |head|];
          assert s[j] == rest[j - |head|];
        }
      }
    }
  }

  /** What `Scan` lists, in order. */
  lemma ScanFacts(t: Table, q: Query, k: int)
    requires t.Valid()
    ensures forall r :: r in t.Scan(q, k) <==> r.id >= k && r.id in t.rows && t.rows[r.id] == r && Matches(q, r)
    ensures forall i, j :: 0 <= i < j < |t.Scan(q, k)| ==> t.Scan(q, k)[i].id < t.Scan(q, k)[j].id
  {
    ScanMembers(t, q, k);
    ScanSorted(t, q, k);
  }

  /** Unfiltered, `Scan` lists one row per stored id at or above `k`. */
  lemma {:induction false} ScanCount(t: Table, k: int)
    requires t.Valid()
    ensures |t.Scan(Everything, k)| == |KeysFrom(t, k)|
    decreases t.nextId - k
  {
    if k >= t.nextId {
      assert KeysFrom(t, k) == {};
    } else {
      ScanCount(t, k + 1);
      if k in t.rows {
        assert KeysFrom(t, k) == KeysFrom(t, k + 1) + {k};
      } else {
        assert KeysFrom(t, k) == KeysFrom(t, k + 1);
      }
    }
  }

  /** A single-result query has only one correct answer. */
  lemma SelectsDeterministic(t: Table, q: Query, a: Single, b: Single)
    requires t.Selects(q, a) && t.Selects(q, b)
    ensures a == b
  {
  }

  /** After `save` succeeds, `findById` with the id of the returned row gives that row back. */
  lemma FindByIdAfterSave(t: Table, f: Fields)
    requires t.Valid()
    requires t.Save(f).result.Success?
    ensures var s := t.Save(f);
      s.table.FindById(s.result.value.id) == Some(s.result.value)
  {
  }

  /** Saving a new, complete record assigns a fresh positive id and stores exactly its texts. */
  lemma SaveNewRecord(t: Table, f: Fields)
    requires t.Valid() && f.id == 0 && Complete(f)
    ensures var s := t.Save(f);
      && s.result.Success?
      && s.result.value.id > 0
      && s.result.value.id !in t.rows
      && s.result.value == RowOf(f, s.result.value.id)
      && AfterSave(f, s.result).id == s.result.value.id
      && s.table.FindById(s.result.value.id) == Some(s.result.value)
  {
  }

  /** Saving a loaded record whose email and first name were changed persists exactly those
      values under the same id and leaves the last name and every other row as they were. */
  lemma SaveChangedRecord(t: Table, id: int, firstName: string, email: string)
    requires t.Valid() && id in t.rows
    ensures var f := FieldsOf(t.rows[id]).(firstName := Some(firstName), email := Some(email));
      var s := t.Save(f);
      && s.result == Success(Row(id, firstName, t.rows[id].lastName, email))
      && s.table.FindById(id) == Some(s.result.value)
      && forall k :: k in t.rows && k != id ==> s.table.FindById(k) == t.FindById(k)
  {
  }

  /** After `deleteById(id)`, `findById(id)` finds nothing, and deleting again changes nothing. */
  lemma FindByIdAfterDelete(t: Table, id: int)
    ensures t.DeleteById(id).FindById(id) == None
    ensures t.DeleteById(id).DeleteById(id) == t.DeleteById(id)
  {
  }

  /** Two new records saved into an empty store make `findAll` return exactly two rows. */
  lemma TwoSavesFindAllTwo(f1: Fields, f2: Fields)
    requires f1.id == 0 && f2.id == 0 && Complete(f1) && Complete(f2)
    ensures var s1 := Empty.Save(f1);
      var s2 := s1.table.Save(f2);
      && s2.result.Success?
      && |s2.table.FindAll()| == 2
  {
  }

  /** The two JPQL finders agree, and so do the two native finders and `findByEmail`. */
  lemma FindersAgree(t: Table, firstName: Option<string>, lastName: Option<string>, email: Option<string>)
    requires t.Valid()
    ensures t.FindByJPQLIndexedParams(firstName, lastName) == t.FindByJPQLNamedParams(firstName, lastName)
    ensures t.FindByNativeSQLIndexedParam(email) == t.FindByEmail(email)
    ensures t.FindByNativeSQLNamedParam(email) == t.FindByEmail(email)
  {
  }

  /** With unique emails, every stored email is found by `findByEmail`, as its own row. */
  lemma FindByStoredEmail(t: Table, id: int)
    requires t.Valid() && t.EmailsUnique() && id in t.rows
    ensures t.FindByEmail(Some(t.rows[id].email)) == OneRow(t.rows[id])
  {
  }

  /** The store: a table that `save` and `deleteById` replace, and the entities `save` updates. */
  class EmployeeRepository {
    var table: Table

    ghost predicate Valid()
      reads this
    {
      table.Valid()
    }

    constructor ()
      ensures Valid() && table == Empty
    {
      table := Empty;
    }

    /** `save(entity)`: a new entity receives its generated id in place. */
    method Save(e: Employee) returns (r: Result<Row>)
      requires Valid()
      modifies this, e
      ensures Valid()
      ensures Step(table, r) == old(table.Save(e.State()))
      ensures e.State() == AfterSave(old(e.State()), r)
    {
      var s := table.Save(e.State());
      table := s.table;
      r := s.result;
      if e.id == 0 && r.Success? {
        e.id := r.value.id;
      }
    }

    /** `deleteById(id)`: never fails. */
    method DeleteById(id: int)
      requires Valid()
      modifies this
      ensures Valid()
      ensures table == old(table).DeleteById(id)
    {
      table := table.DeleteById(id);
    }
  }
}
