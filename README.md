# Employee service, modelled in Dafny

A model of the core of a small employee-records backend: the `Employee` entity, the store
that persists it in table `employees` (an identity id column and three NOT NULL text
columns), the service that refuses to create a second record with an email already stored,
and the request handlers' logic (create, list, read one, update by merging three fields into
the loaded record, delete) without HTTP.

Layout, one module per source file:

- `base.dfy` — `Base`: `Option` (a Java reference that may be null, or an `Optional`),
  `Result` (a value or the error an operation raised) and `Error`, the four failures of the
  core: `NullColumn`, `MissingRow`, `NonUniqueResult` from the store and `DuplicateEmail` from
  the service (thrown there as `ResourceNotFoundException`).
- `employee.dfy` — `EmployeeModel`: `Fields` (the state of an `Employee` object: id 0 until
  the store assigns one, nullable texts), `Row` (a stored row: every text present) and the
  class `Employee` with its constructors and setters.
- `repository.dfy` — `Repository`: the datatype `Table` (the rows by id plus the next identity
  value, which starts at 1) holding the store's semantics as functions — `findById`,
  `findAll`, the five single-result finders, `save`, `deleteById` — and the class
  `EmployeeRepository`, whose methods replace its table and, on an insert, write the generated
  id into the saved entity. `Table.Valid()` is the store invariant (ids are generated,
  positive, below the counter and equal to their row's id); `Table.EmailsUnique()` is the
  email-uniqueness invariant; `Table.Selects(q, r)` says what a correct answer of a
  single-result query is.
- `service.dfy` — `Service`: `SaveEmployeeStep` (the duplicate-email rule as a function of the
  table), the class `EmployeeService` and the lemmas that `saveEmployee` keeps emails unique
  while `updateEmployee` does not.
- `controller.dfy` — `Controller`: `Response` (ok / not found / failed), `UpdateStep` (lookup,
  merge, save) and the class `EmployeeController`.

Each state-changing method is proved against a function of the old state
(`Step(table, r) == old(table.Save(e.State()))`, `Step(...) == SaveEmployeeStep(...)`,
`Step(...) == UpdateStep(...)`), and the properties are proved about those functions.

The three text columns are declared `nullable = false` and nothing more
(`Employee.java:32-39`), so the model refuses null and accepts the empty string.

Choices where the code leaves behaviour to the persistence library:

- `save` treats an entity whose `long` id is 0 as new (the rule for a primitive id) and
  inserts it under the next identity value; any other id overwrites the stored row with that
  id, and fails with `MissingRow`, changing nothing, when there is none.
- A null text column makes `save` fail with `NullColumn` and change nothing.
- A single-result finder answers `NoRow`, `OneRow(row)` or `ManyRows`. `ManyRows` is the
  library's result-size error; `saveEmployee` passes it on as `NonUniqueResult` without
  saving.
- A null finder argument matches no row, since no stored text is null.
- `findAll` lists rows by ascending id.
- `deleteById` of an absent id does nothing and is not an error.

## Model

| member | source | states |
|---|---|---|
| `EmployeeModel.Employee.constructor` | src/main/java/com/shah/employees/model/Employee.java:21-23 | the all-arguments constructor and builder set exactly the given id and texts |
| `EmployeeModel.Employee.Blank` | src/main/java/com/shah/employees/model/Employee.java:22 | the no-arguments constructor leaves id 0 and every text null |
| `EmployeeModel.Employee.SetId` | src/main/java/com/shah/employees/model/Employee.java:19 | the generated setter changes the id and nothing else |
| `EmployeeModel.Employee.SetFirstName` | src/main/java/com/shah/employees/model/Employee.java:19 | the generated setter changes firstName and nothing else |
| `EmployeeModel.Employee.SetLastName` | src/main/java/com/shah/employees/model/Employee.java:19 | the generated setter changes lastName and nothing else |
| `EmployeeModel.Employee.SetEmail` | src/main/java/com/shah/employees/model/Employee.java:19 | the generated setter changes email and nothing else |
| `EmployeeModel.FieldsOf` | src/main/java/com/shah/employees/model/Employee.java:32-39 | an entity loaded from a stored row carries the row's id and has no null text, so saving it unchanged writes back that same row |
| `Repository.Table.FindById` | src/main/java/com/shah/employees/repository/EmployeeRepository.java:13 | a record is found exactly when its id is stored, it is the stored record and carries the asked id; absence otherwise |
| `Repository.Table.FindAll` | src/main/java/com/shah/employees/repository/EmployeeRepository.java:13 | lists every stored record exactly once (as many entries as stored ids, all of them stored, ids strictly ascending) |
| `Repository.Table.Find` | src/main/java/com/shah/employees/repository/EmployeeRepository.java:15-31 | a single-result query answers none exactly when no row matches, the one matching row when it is the only one, several exactly when two distinct rows match |
| `Repository.Table.FindByEmail` | src/main/java/com/shah/employees/repository/EmployeeRepository.java:15 | returns the stored row whose email equals the argument when it is the only one, absence when none holds it, and never several while emails are unique |
| `Repository.Table.FindByJPQLIndexedParams` | src/main/java/com/shah/employees/repository/EmployeeRepository.java:18-19 | selects the row whose firstName and lastName both equal the arguments |
| `Repository.Table.FindByJPQLNamedParams` | src/main/java/com/shah/employees/repository/EmployeeRepository.java:22-23 | selects the row whose firstName and lastName both equal the arguments |
| `Repository.Table.FindByNativeSQLIndexedParam` | src/main/java/com/shah/employees/repository/EmployeeRepository.java:26-27 | selects the row whose email equals the argument |
| `Repository.Table.FindByNativeSQLNamedParam` | src/main/java/com/shah/employees/repository/EmployeeRepository.java:30-31 | selects the row whose email equals the argument |
| `Repository.Table.Save` | src/main/java/com/shah/employees/model/Employee.java:28-39 | succeeds exactly for a complete entity that is new (id 0) or stored; a new one gets the next identity value (positive, not yet stored) and the counter advances; the stored row holds exactly the entity's texts and no other row changes; a failure (MissingRow before NullColumn) leaves the table unchanged; the store invariant is kept |
| `Repository.Table.DeleteById` | src/main/java/com/shah/employees/repository/EmployeeRepository.java:13 | removes exactly that id, keeps every other row and the counter, keeps the store invariant and unique emails; an absent id is no error |
| `Repository.SelectsDeterministic` | src/main/java/com/shah/employees/repository/EmployeeRepository.java:15-31 | a single-result query has only one correct answer on a given table |
| `Repository.FindersAgree` | src/main/java/com/shah/employees/repository/EmployeeRepository.java:18-31 | the indexed and named JPQL finders agree, and both native finders agree with findByEmail |
| `Repository.FindByStoredEmail` | src/test/java/com/shah/employees/repository/EmployeeRepositoryTest.java:99-105 | with unique emails, findByEmail of a stored email returns that record |
| `Repository.SaveNewRecord` | src/test/java/com/shah/employees/repository/EmployeeRepositoryTest.java:37-41 | saving a new complete record succeeds with a fresh id > 0, stores its texts, writes the id into the entity and makes it findable |
| `Repository.FindByIdAfterSave` | src/test/java/com/shah/employees/repository/EmployeeRepositoryTest.java:80-86 | after a successful save, findById with the returned id gives the returned record |
| `Repository.TwoSavesFindAllTwo` | src/test/java/com/shah/employees/repository/EmployeeRepositoryTest.java:59-67 | two new records saved into an empty store make findAll return exactly two records |
| `Repository.SaveChangedRecord` | src/test/java/com/shah/employees/repository/EmployeeRepositoryTest.java:121-128 | saving a loaded record with new email and firstName persists exactly those values under the same id, keeps lastName, and changes no other record |
| `Repository.FindByIdAfterDelete` | src/test/java/com/shah/employees/repository/EmployeeRepositoryTest.java:146-151 | after deleteById(id), findById(id) is absent, and deleting again changes nothing |
| `Repository.EmployeeRepository.constructor` | src/main/java/com/shah/employees/repository/EmployeeRepository.java:13 | a new store is empty with the identity counter at 1 |
| `Repository.EmployeeRepository.Save` | src/main/java/com/shah/employees/repository/EmployeeRepository.java:13 | the new table and the result are those of Table.Save on the old table and the entity; an inserted entity receives its id in place, otherwise it is untouched |
| `Repository.EmployeeRepository.DeleteById` | src/main/java/com/shah/employees/repository/EmployeeRepository.java:13 | the new table is Table.DeleteById of the old one |
| `Service.SaveEmployeeStep` | src/main/java/com/shah/employees/service/EmployeeServiceImpl.java:23-30 | a stored email fails with the table unchanged; an email held by exactly one stored record gives DuplicateEmail whatever the other records hold (so always while emails are unique); DuplicateEmail only for a stored email; an email not stored gives exactly the store's save; two distinct stored records holding the email give NonUniqueResult with the table unchanged; a successful save leaves no other record with its email; the store invariant is kept |
| `Service.DuplicateBesideSharedEmail` | src/main/java/com/shah/employees/service/EmployeeServiceImpl.java:24-28 | in a store where two other records share an email, creating a record whose email exactly one record holds is refused with DuplicateEmail and changes nothing |
| `Service.SaveEmployeePreservesUniqueEmails` | src/main/java/com/shah/employees/service/EmployeeServiceImpl.java:23-30 | if no two stored records share an email before saveEmployee, none do after it |
| `Service.DuplicateCreateScenario` | src/test/java/com/shah/employees/repository/EmployeeRepositoryTest.java:30-41 | creating the Chandler Bing record gives an id > 0 and echoes the fields; a second creation with the same email (the refusal of `EmployeeServiceTestRefactored.java:72-85`) fails with DuplicateEmail, saves nothing, and the store still lists one record |
| `Service.TwoDistinctCreatesListTwo` | src/main/java/com/shah/employees/service/EmployeeServiceImpl.java:23-36 | two creations with different emails into an empty store both succeed and the listing then has two records |
| `Service.UpdateEmployeeMayBreakUniqueEmails` | src/main/java/com/shah/employees/service/EmployeeServiceImpl.java:45-48 | updateEmployee saves without an email check: on a table with unique emails, moving one record onto another's email succeeds and leaves a duplicate |
| `Service.EmployeeService.constructor` | src/main/java/com/shah/employees/service/EmployeeServiceImpl.java:18-20 | the service holds the store it is given |
| `Service.EmployeeService.SaveEmployee` | src/main/java/com/shah/employees/service/EmployeeServiceImpl.java:23-30 | new table and result are SaveEmployeeStep of the old table and the entity; on refusal save is never called and the entity is untouched |
| `Service.EmployeeService.GetAllEmployees` | src/main/java/com/shah/employees/service/EmployeeServiceImpl.java:33-36 | returns every stored record, as many as stored ids, and the empty sequence for an empty store |
| `Service.EmployeeService.GetEmployeeById` | src/main/java/com/shah/employees/service/EmployeeServiceImpl.java:39-42 | returns the stored record when the id is stored and absence otherwise |
| `Service.EmployeeService.UpdateEmployee` | src/main/java/com/shah/employees/service/EmployeeServiceImpl.java:45-48 | the new table and result are exactly the store's save of the given record, with no email check |
| `Service.EmployeeService.DeleteEmployee` | src/main/java/com/shah/employees/service/EmployeeServiceImpl.java:51-54 | the new table is the store's deleteById of the old one; there is no failure |
| `Controller.Merge` | src/main/java/com/shah/employees/controller/EmployeeController.java:58-60 | the merged record keeps the loaded id and takes firstName, lastName and email from the request |
| `Controller.UpdateStep` | src/main/java/com/shah/employees/controller/EmployeeController.java:53-66 | an absent id answers not found and saves nothing; a present id with a complete request answers the merged record (stored id, request's texts), stores it under that id, changes no other record and keeps the next identity value; a null text fails with the table unchanged; the store invariant is kept |
| `Controller.UpdateMayBreakUniqueEmails` | src/main/java/com/shah/employees/controller/EmployeeController.java:57-63 | an update onto another record's email succeeds and leaves two records with one email |
| `Controller.UpdateKeepsUniqueEmailsWhenFree` | src/main/java/com/shah/employees/controller/EmployeeController.java:57-63 | an update whose email no other record holds keeps emails unique |
| `Controller.EmployeeController.constructor` | src/main/java/com/shah/employees/controller/EmployeeController.java:27-30 | the controller holds the service it is given |
| `Controller.EmployeeController.CreateEmployee` | src/main/java/com/shah/employees/controller/EmployeeController.java:34-37 | new table and result are exactly those of saveEmployee, its DuplicateEmail failure included |
| `Controller.EmployeeController.GetAllEmployees` | src/main/java/com/shah/employees/controller/EmployeeController.java:40-42 | returns every stored record, as many as there are stored records, and nothing that is not stored |
| `Controller.EmployeeController.GetEmployeeById` | src/main/java/com/shah/employees/controller/EmployeeController.java:45-50 | answers the stored record exactly when the id is stored, not found otherwise, never a failure |
| `Controller.EmployeeController.UpdateEmployee` | src/main/java/com/shah/employees/controller/EmployeeController.java:53-66 | after loading, setting the three texts and calling the service's update, the new table and answer are those of UpdateStep |
| `Controller.EmployeeController.DeleteEmployee` | src/main/java/com/shah/employees/controller/EmployeeController.java:68-72 | deletes through the service and always answers the success message, whether or not the id was stored |

## Left out

- HTTP: routing, status codes and `ResponseEntity` are replaced by the outcome values
  `Ok`, `NotFound` and `Failed`; the exception's message text is not kept.
- Dependency injection: the service and the controller receive their collaborator in the
  constructor, as the source's constructors do.
- The persistence context: the store keeps row values, so object identity between a stored
  entity and the objects handed out, dirty checking and transactions are not modelled; a
  record loaded by `findById` becomes a new `Employee` object.
- Query text (JPQL and SQL) is not parsed; each finder is a filter over the rows.
- Concurrency: the race between the email lookup and the save in `saveEmployee` cannot occur
  in this sequential model.
- Ids are unbounded integers: overflow of the 64-bit identity column is not modelled.
- Repository.Table.Save: when an entity with a non-zero id that is not stored is saved, some
  library versions insert it under a newly generated id instead of failing; the model fails
  with `MissingRow`.
- Repository.Table.FindByEmail: the Java signals for "no row" (an empty `Optional` or null)
  and "several rows" (a library exception) are represented only as the outcomes `NoRow` and
  `ManyRows`.
- Text comparison is exact character equality: a case-insensitive database collation, which
  would change what `findByEmail`, the native finders and the duplicate-email check match, is
  not modelled.
- Storage faults other than a null column, a missing row and a non-unique result (an
  unavailable database, a constraint not declared in the code) are not modelled.
- Getters and the builder are not separate members: fields are read directly, and the
  builder is the all-arguments constructor with id 0 when no id is given.
- `EmployeeService.java` is an interface with signatures only; the class `EmployeeService`
  here models its one implementation.
