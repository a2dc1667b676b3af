/** The employee service: one business rule (no second record with a stored email) on top of
    the store, and plain delegation for everything else. */
module Service {
  import opened Base
  import opened EmployeeModel
  import opened Repository

  /** Some stored row holds `email`. */
  ghost predicate EmailStored(t: Table, email: Option<string>) {
    exists id :: id in t.rows && Some(t.rows[id].email) == email
  }

  /** Exactly one stored row holds `email`, whatever the other rows hold. */
  ghost predicate HeldByOne(t: Table, email: Option<string>) {
    exists id :: id in t.rows && Some(t.rows[id].email) == email
      && forall k :: k in t.rows && Some(t.rows[k].email) == email ==> k == id
  }

  /** Two distinct stored rows hold `email`. */
  ghost predicate HeldByMany(t: Table, email: Option<string>) {
    exists i, j :: i in t.rows && j in t.rows && i != j
      && Some(t.rows[i].email) == email && Some(t.rows[j].email) == email
  }

  /** When `findByEmail` finds nothing, no row holds the email. */
  lemma NoRowNotHeld(t: Table, email: Option<string>)
    requires t.Valid() && t.FindByEmail(email).NoRow?
    ensures !EmailStored(t, email) && !HeldByOne(t, email) && !HeldByMany(t, email)
  {
  }

  /** When `findByEmail` finds one row, the email is stored and no two rows hold it. */
  lemma OneRowNotHeldByMany(t: Table, email: Option<string>)
    requires t.Valid() && t.FindByEmail(email).OneRow?
    ensures EmailStored(t, email) && !HeldByMany(t, email)
  {
  }

  /** When `findByEmail` reports several rows, the email is stored and no row holds it alone. */
  lemma ManyRowsNotHeldByOne(t: Table, email: Option<string>)
    requires t.Valid() && t.FindByEmail(email).ManyRows?
    ensures EmailStored(t, email) && !HeldByOne(t, email)
  {
  }

  /** `saveEmployee`: look the email up first; if it is stored, refuse with `DuplicateEmail`
      (or with the store's `NonUniqueResult` when several rows already hold it) and leave the
      table alone; otherwise the outcome is exactly that of the store's `save`. */
  function SaveEmployeeStep(t: Table, f: Fields): (s: Step<Result<Row>>)
    requires t.Valid()
    ensures EmailStored(t, f.email) ==> s.table == t && s.result.Failure?
    ensures EmailStored(t, f.email) && t.EmailsUnique() ==> s.result == Failure(DuplicateEmail)
    ensures HeldByOne(t, f.email) ==> s == Step(t, Failure(DuplicateEmail))
    ensures s.result == Failure(DuplicateEmail) ==> EmailStored(t, f.email)
    ensures HeldByMany(t, f.email) ==> s == Step(t, Failure(NonUniqueResult))
    ensures !EmailStored(t, f.email) ==> s == t.Save(f)
    ensures s.table.Valid()
    ensures s.result.Success? ==>
      forall id :: id in s.table.rows && id != s.result.value.id ==> s.table.rows[id].email != s.result.value.email
  {
    match t.FindByEmail(f.email)
    case OneRow(_) => OneRowNotHeldByMany(t, f.email); Step(t, Failure(DuplicateEmail))
    case ManyRows => ManyRowsNotHeldByOne(t, f.email); Step(t, Failure(NonUniqueResult))
    case NoRow => NoRowNotHeld(t, f.email); t.Save(f)
  }

  /** If no two stored records share an email before `saveEmployee`, none do after it. */
  lemma SaveEmployeePreservesUniqueEmails(t: Table, f: Fields)
    requires t.Valid() && t.EmailsUnique()
    ensures SaveEmployeeStep(t, f).table.EmailsUnique()
  {
  }

  /** `updateEmployee` saves the record it is given without looking at its email, so it can
      leave two rows with one email: renaming row 2's email to row 1's succeeds. */
  lemma UpdateEmployeeMayBreakUniqueEmails()
    ensures var t := Table(map[1 := Row(1, "Ross", "Geller", "ross@x"), 2 := Row(2, "Monica", "Geller", "monica@x")], 3);
      var f := Fields(2, Some("Monica"), Some("Geller"), Some("ross@x"));
      && t.Valid() && t.EmailsUnique()
      && t.Save(f).result.Success?
      && !t.Save(f).table.EmailsUnique()
  {
    var t := Table(map[1 := Row(1, "Ross", "Geller", "ross@x"), 2 := Row(2, "Monica", "Geller", "monica@x")], 3);
    var f := Fields(2, Some("Monica"), Some("Geller"), Some("ross@x"));
    var s := t.Save(f);
    assert s.table.rows[1].email == s.table.rows[2].email;
  }

  /** A single holder is refused with `DuplicateEmail` even where another email is shared by
      two rows, a state `updateEmployee` can reach. */
  lemma DuplicateBesideSharedEmail()
    ensures var t := Table(map[1 := Row(1, "Ross", "Geller", "x"), 2 := Row(2, "Monica", "Geller", "x"),
                               3 := Row(3, "Rachel", "Green", "y")], 4);
      && t.Valid() && !t.EmailsUnique()
      && SaveEmployeeStep(t, Fields(0, Some("Joey"), Some("Tribbiani"), Some("y"))) == Step(t, Failure(DuplicateEmail))
  {
    var t := Table(map[1 := Row(1, "Ross", "Geller", "x"), 2 := Row(2, "Monica", "Geller", "x"),
                       3 := Row(3, "Rachel", "Green", "y")], 4);
    assert t.rows[1].email == t.rows[2].email;
    assert HeldByOne(t, Some("y")) by {
      assert t.rows.Keys == {1, 2, 3};
      assert 3 in t.rows && Some(t.rows[3].email) == Some("y")
        && forall k :: k in t.rows && Some(t.rows[k].email) == Some("y") ==> k == 3;
    }
  }

  /** Creating a record and then a second one with the same email: the first gets a positive
      id and echoes its fields, the second is refused and the store still holds one record. */
  lemma DuplicateCreateScenario()
    ensures var first := Fields(0, Some("Chandler"), Some("Bing"), Some("sarcastic.bing@yahoo.com"));
      var second := Fields(0, Some("Joey"), Some("Tribbiani"), Some("sarcastic.bing@yahoo.com"));
      var s1 := SaveEmployeeStep(Empty, first);
      var s2 := SaveEmployeeStep(s1.table, second);
      && s1.result.Success? && s1.result.value.id > 0
      && s1.result.value == Row(s1.result.value.id, "Chandler", "Bing", "sarcastic.bing@yahoo.com")
      && s2.result == Failure(DuplicateEmail)
      && s2.table == s1.table
      && |s2.table.FindAll()| == 1
  {
  }

  /** Two creations with different emails into an empty store both succeed, and
      `getAllEmployees` then lists two records. */
  lemma TwoDistinctCreatesListTwo(f1: Fields, f2: Fields)
    requires f1.id == 0 && f2.id == 0 && Complete(f1) && Complete(f2) && f1.email != f2.email
    ensures var s1 := SaveEmployeeStep(Empty, f1);
      var s2 := SaveEmployeeStep(s1.table, f2);
      && s1.result.Success? && s2.result.Success?
      && |s2.table.FindAll()| == 2
  {
    var s1 := SaveEmployeeStep(Empty, f1);
    assert !EmailStored(Empty, f1.email);
    assert s1 == Empty.Save(f1);
    var row1 := s1.result.value;
    assert s1.table.rows == map[1 := row1];
    assert !EmailStored(s1.table, f2.email);
    var s2 := SaveEmployeeStep(s1.table, f2);
    assert s2 == s1.table.Save(f2);
    assert s2.table.rows.Keys == {1, 2};
  }

  /** The service, holding the store it delegates to. */
  class EmployeeService {
    const repository: EmployeeRepository

    constructor (repository: EmployeeRepository)
      ensures this.repository == repository
    {
      this.repository := repository;
    }

    /** `saveEmployee(employee)`; the refusal never calls `save`, so the store is untouched. */
    method SaveEmployee(e: Employee) returns (r: Result<Row>)
      requires repository.Valid()
      modifies repository, e
      ensures repository.Valid()
      ensures Step(repository.table, r) == SaveEmployeeStep(old(repository.table), old(e.State()))
      ensures e.State() == AfterSave(old(e.State()), r)
    {
      var found := repository.table.FindByEmail(e.email);
      match found
      case OneRow(_) =>
        r := Failure(DuplicateEmail);
      case ManyRows =>
        r := Failure(NonUniqueResult);
      case NoRow =>
        r := repository.Save(e);
    }

    /** `getAllEmployees`: the store's full listing; empty, not an error, for an empty store. */
    function GetAllEmployees(): (r: seq<Row>)
      requires repository.Valid()
      reads repository
      ensures |r| == |repository.table.rows|
      ensures forall id :: id in repository.table.rows ==> repository.table.rows[id] in r
      ensures repository.table.rows == map[] ==> r == []
    {
      repository.table.FindAll()
    }

    /** `getEmployeeById`: the store's optional answer, absence included. */
    function GetEmployeeById(id: int): (r: Option<Row>)
      reads repository
      ensures r.Some? <==> id in repository.table.rows
      ensures r.Some? ==> r.value == repository.table.rows[id]
    {
      repository.table.FindById(id)
    }

    /** `updateEmployee(employee)`: the store's `save` of the record as given, no email check. */
    method UpdateEmployee(e: Employee) returns (r: Result<Row>)
      requires repository.Valid()
      modifies repository, e
      ensures repository.Valid()
      ensures Step(repository.table, r) == old(repository.table.Save(e.State()))
      ensures e.State() == AfterSave(old(e.State()), r)
    {
      r := repository.Save(e);
    }

    /** `deleteEmployee(id)`: one `deleteById`, never a failure. */
    method DeleteEmployee(id: int)
      requires repository.Valid()
      modifies repository
      ensures repository.Valid()
      ensures repository.table == old(repository.table).DeleteById(id)
    {
      repository.DeleteById(id);
    }
  }
}
