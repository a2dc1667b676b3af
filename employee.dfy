/** The `Employee` entity: a mutable object with a store-generated id and three required texts. */
module EmployeeModel {
  import opened Base

  /** The state of one `Employee` object: a `long` id (0 until the store assigns one) and three
      `String` references, `None` standing for null. */
  datatype Fields = Fields(id: int, firstName: Option<string>, lastName: Option<string>, email: Option<string>)

  /** One row of table `employees`.  Its three text columns are NOT NULL, so each holds a string. */
  datatype Row = Row(id: int, firstName: string, lastName: string, email: string)

  /** No required column of `f` is null. */
  predicate Complete(f: Fields) {
    f.firstName.Some? && f.lastName.Some? && f.email.Some?
  }

  /** The row that persisting `f` under identifier `id` writes. */
  function RowOf(f: Fields, id: int): (r: Row)
    requires Complete(f)
  {
    Row(id, f.firstName.value, f.lastName.value, f.email.value)
  }

  /** The entity state the store hands back for a stored row. */
  function FieldsOf(r: Row): (f: Fields)
    ensures f.id == r.id
    ensures Complete(f) && RowOf(f, r.id) == r
  {
    Fields(r.id, Some(r.firstName), Some(r.lastName), Some(r.email))
  }

  /** An `Employee` object, updated in place through its setters. */
  class Employee {
    var id: int
    var firstName: Option<string>
    var lastName: Option<string>
    var email: Option<string>

    function State(): (f: Fields)
      reads this
    {
      Fields(id, firstName, lastName, email)
    }

    /** The all-arguments constructor (and the builder, which passes 0 for an id it was not given). */
    constructor (id: int, firstName: Option<string>, lastName: Option<string>, email: Option<string>)
      ensures State() == Fields(id, firstName, lastName, email)
    {
      this.id := id;
      this.firstName := firstName;
      this.lastName := lastName;
      this.email := email;
    }

    /** The no-arguments constructor: id 0 and null texts. */
    constructor Blank()
      ensures State() == Fields(0, None, None, None)
    {
      id := 0;
      firstName := None;
      lastName := None;
      email := None;
    }

    method SetId(v: int)
      modifies this
      ensures State() == old(State()).(id := v)
    {
      id := v;
    }

    method SetFirstName(v: Option<string>)
      modifies this
      ensures State() == old(State()).(firstName := v)
    {
      firstName := v;
    }

    method SetLastName(v: Option<string>)
      modifies this
      ensures State() == old(State()).(lastName := v)
    {
      lastName := v;
    }

    method SetEmail(v: Option<string>)
      modifies this
      ensures State() == old(State()).(email := v)
    {
      email := v;
    }
  }
}
