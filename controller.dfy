/** The request-handling logic of the employee API, without HTTP: what each handler computes
    and what it leaves in the store. */
module Controller {
  import opened Base
  import opened EmployeeModel
  import opened Repository
  import opened Service

  /** What a handler answers: a record, "not found", or the failure the service raised. */
  datatype Response = Ok(employee: Row) | NotFound | Failed(error: Error)

  /** The setters' merge: the loaded record keeps its id and takes the request's three texts. */
  function Merge(saved: Fields, request: Fields): (m: Fields)
    ensures m.id == saved.id
    ensures m.firstName == request.firstName && m.lastName == request.lastName && m.email == request.email
  {
    saved.(firstName := request.firstName, lastName := request.lastName, email := request.email)
  }

  /** `updateEmployee(id, request)`: look the record up; absent, answer not found and save
      nothing; present, merge the request's texts into it and save it through the service. */
  function UpdateStep(t: Table, id: int, request: Fields): (s: Step<Response>)
    requires t.Valid()
    ensures id !in t.rows ==> s == Step(t, NotFound)
    ensures id in t.rows && Complete(request) ==>
      && s.result == Ok(RowOf(request, id))
      && s.table.rows.Keys == t.rows.Keys
      && s.table.nextId == t.nextId
      && s.table.rows[id] == s.result.employee
      && (forall k :: k in t.rows && k != id ==> s.table.rows[k] == t.rows[k])
    ensures id in t.rows && !Complete(request) ==> s == Step(t, Failed(NullColumn))
    ensures s.table.Valid()
    ensures s.result != NotFound ==> id in t.rows
  {
    match t.FindById(id)
    case None => Step(t, NotFound)
    case Some(saved) =>
      var u := t.Save(Merge(FieldsOf(saved), request));
      Step(u.table, match u.result case Success(row) => Ok(row) case Failure(err) => Failed(err))
  }

  /** An update that moves a record onto an email another record holds succeeds, so
      `updateEmployee` does not keep emails unique. */
  lemma UpdateMayBreakUniqueEmails()
    ensures var t := Table(map[1 := Row(1, "Rachel", "Green", "popularRachel@gmail.com"),
                               2 := Row(2, "Monica", "Geller", "workaholic.monanana@rediff.us")], 3);
      var request := Fields(0, Some("Monica"), Some("Geller"), Some("popularRachel@gmail.com"));
      && t.Valid() && t.EmailsUnique()
      && UpdateStep(t, 2, request).result.Ok?
      && !UpdateStep(t, 2, request).table.EmailsUnique()
  {
    var t := Table(map[1 := Row(1, "Rachel", "Green", "popularRachel@gmail.com"),
                       2 := Row(2, "Monica", "Geller", "workaholic.monanana@rediff.us")], 3);
    var request := Fields(0, Some("Monica"), Some("Geller"), Some("popularRachel@gmail.com"));
    var s := UpdateStep(t, 2, request);
    assert s.table.rows[1].email == s.table.rows[2].email;
  }

  /** An update keeps emails unique when no other record holds the requested email. */
  lemma UpdateKeepsUniqueEmailsWhenFree(t: Table, id: int, request: Fields)
    requires t.Valid() && t.EmailsUnique() && id in t.rows
    requires forall k :: k in t.rows && k != id ==> Some(t.rows[k].email) != request.email
    ensures UpdateStep(t, id, request).table.EmailsUnique()
  {
  }

  /** The handlers, holding the service they call. */
  class EmployeeController {
    const service: EmployeeService

    constructor (service: EmployeeService)
      ensures this.service == service
    {
      this.service := service;
    }

    /** `createEmployee`: exactly the service's `saveEmployee`, its refusal included. */
    method CreateEmployee(e: Employee) returns (r: Result<Row>)
      requires service.repository.Valid()
      modifies service.repository, e
      ensures service.repository.Valid()
      ensures Step(service.repository.table, r) == SaveEmployeeStep(old(service.repository.table), old(e.State()))
      ensures e.State() == AfterSave(old(e.State()), r)
    {
      r := service.SaveEmployee(e);
    }

    /** `getAllEmployees`: every stored record. */
    function GetAllEmployees(): (r: seq<Row>)
      requires service.repository.Valid()
      reads service.repository
      ensures |r| == |service.repository.table.rows|
      ensures forall i :: 0 <= i < |r| ==> r[i] in service.repository.table.rows.Values
      ensures forall id :: id in service.repository.table.rows ==> service.repository.table.rows[id] in r
    {
      service.GetAllEmployees()
    }

    /** `getEmployeeById`: the record when stored, not found otherwise. */
    function GetEmployeeById(id: int): (r: Response)
      reads service.repository
      ensures r.Ok? <==> id in service.repository.table.rows
      ensures r.Ok? ==> r.employee == service.repository.table.rows[id]
      ensures r.Ok? || r.NotFound?
    {
      match service.GetEmployeeById(id)
      case Some(saved) => Ok(saved)
      case None => NotFound
    }

    /** `updateEmployee(id, request)`: the loaded record is changed through its setters and
        handed to the service's `updateEmployee`. */
    method UpdateEmployee(id: int, request: Employee) returns (r: Response)
      requires service.repository.Valid()
      modifies service.repository
      ensures service.repository.Valid()
      ensures Step(service.repository.table, r) == UpdateStep(old(service.repository.table), id, old(request.State()))
    {
      var found := service.GetEmployeeById(id);
      match found
      case None =>
        r := NotFound;
      case Some(row) =>
        var saved := new Employee(row.id, Some(row.firstName), Some(row.lastName), Some(row.email));
        saved.SetFirstName(request.firstName);
        saved.SetLastName(request.lastName);
        saved.SetEmail(request.email);
        var updated := service.UpdateEmployee(saved);
        r := match updated case Success(v) => Ok(v) case Failure(err) => Failed(err);
    }

    /** `deleteEmployee(id)`: always the success message, whether or not the id was stored. */
    method DeleteEmployee(id: int) returns (message: string)
      requires service.repository.Valid()
      modifies service.repository
      ensures service.repository.Valid()
      ensures service.repository.table == old(service.repository.table).DeleteById(id)
      ensures message == "Employee deleted successfully!"
    {
      service.DeleteEmployee(id);
      message := "Employee deleted successfully!";
    }
  }
}
