# Student service: a Dafny model

This project models the student record service of a small Spring application.
`StudentServiceImpl` offers five operations over a table of student records
keyed by id: create, get by id, list all, update by id and delete by id. It
also has two field-copy mappings between the transport shape `Student` and the
persisted shape `StudentEntity`. Get, update and delete share one guard. They
look the id up, and when it is absent they fail with the message
`"Student not found with id: " + id`.

Modules, one per component:

- `Wrappers` holds `Option`, which stands for Java's `Optional` and for a null `Long` id.
- `Decimal` renders an integer the way Java does when a `long` is
  concatenated to a string. A ghost parser reads the rendering back, which
  proves that the rendering loses nothing.
- `Records` holds the two record shapes, `ToDto` (`mapToDTO`), `ToEntity`
  (`mapToEntity`) and `ToDtos`, the stream `map`/`collect` used by `getAllStudents`.
- `Repository` holds the record store, the Spring Data `JpaRepository`. It is a
  class with a `map<int, StudentEntity>` of rows, the insertion order that
  `findAll` returns, and an id counter. Its methods are `Save` (an upsert),
  `FindById`, `FindAll` and `Delete`.
- `Service` holds the `StudentServiceImpl` class over that store. Each
  operation returns `Result<T> = Ok(value) | NotFound(id)` where the Java code
  throws a `RuntimeException`. `Result.Message()` gives the exception's message.
- `Scenarios` holds clients that use only the service's contracts. Some chain
  operations: create then get, update then get, delete then get, and repeated
  get. The `Test…` methods restate the cases of
  `src/test/java/edu/icet/ecom/service/StudentServiceTest.java`, one method per
  case, checked against a real in-memory store instead of a mock. Each one's
  `ensures` clauses state what that test asserts, including the not-found
  message.

`GetStudentById` and `GetAllStudents` have no `modifies` clause, so Dafny's
framing alone guarantees that they leave the store unchanged. On the not-found
path, `UpdateStudent` and `DeleteStudent` state `unchanged(studentRepository)`.
This stands for the tests' `never().save(...)` and `never().delete(...)`.

The DTO `Student` is declared in the file `src/main/java/edu/icet/ecom/entity/StudentEntity.java`.
The Java declaration of the persisted class `StudentEntity` is not among the
source files modelled here. The model's `Records.StudentEntity` takes its four
fields from the constructor call in `mapToEntity`.

## Model

| member | source | states |
|---|---|---|
| `Records.MappingsCopyFields` | src/main/java/edu/icet/ecom/service/impl/StudentServiceImpl.java:67-83 | `mapToDTO` and `mapToEntity` copy id, name, email and gpa unchanged |
| `Records.DtoRoundTrip` | src/main/java/edu/icet/ecom/service/impl/StudentServiceImpl.java:67-83 | mapping a transport record to the persisted shape and back gives the same record |
| `Records.EntityRoundTrip` | src/main/java/edu/icet/ecom/service/impl/StudentServiceImpl.java:67-83 | mapping a persisted record to the transport shape and back gives the same record |
| `Records.ToDtoInjective` | src/main/java/edu/icet/ecom/service/impl/StudentServiceImpl.java:67-74 | distinct persisted records map to distinct transport records |
| `Records.ToDtos` | src/main/java/edu/icet/ecom/service/impl/StudentServiceImpl.java:40-42 | the stream map yields exactly one transport record per persisted record, with the same length and order, each the `mapToDTO` image of its counterpart |
| `Decimal.NatToString` | src/main/java/edu/icet/ecom/service/impl/StudentServiceImpl.java:33 | the digits of a magnitude: never empty, only decimal digits, no leading zero except for "0" itself |
| `Decimal.NatToStringRoundTrip` | src/main/java/edu/icet/ecom/service/impl/StudentServiceImpl.java:33 | reading the digits back gives the number |
| `Decimal.IntToStringRoundTrip` | src/main/java/edu/icet/ecom/service/impl/StudentServiceImpl.java:33 | the rendering of a signed id, with its minus sign, reads back as that id |
| `Decimal.IntToStringInjective` | src/main/java/edu/icet/ecom/service/impl/StudentServiceImpl.java:33 | distinct ids render as distinct strings |
| `Service.NotFoundMessageNamesId` | src/main/java/edu/icet/ecom/service/impl/StudentServiceImpl.java:33 | the not-found message is the prefix "Student not found with id: " followed by exactly the missing id in decimal |
| `Service.NotFoundMessageInjective` | src/main/java/edu/icet/ecom/service/impl/StudentServiceImpl.java:48 | two not-found messages are equal only for the same id, so the message identifies the missing record |
| `Repository.Without` | src/main/java/edu/icet/ecom/repository/StudentRepository.java:8 | removing a key from the listing order keeps every other key, drops that key, keeps the order free of repeats, and changes nothing when the key is absent |
| `Repository.WithoutKeepsOrder` | src/main/java/edu/icet/ecom/repository/StudentRepository.java:8 | any two keys left in the listing order after a delete stand in the old order in the same relative order |
| `Repository.DistinctCardinality` | src/main/java/edu/icet/ecom/repository/StudentRepository.java:8 | a listing order without repeats has as many keys as positions, so `findAll` returns as many records as there are rows |
| `Repository.StudentRepository.constructor` | src/main/java/edu/icet/ecom/repository/StudentRepository.java:8 | a new store is an empty table with an empty listing order, and satisfies the table invariant |
| `Repository.StudentRepository.Save` | src/main/java/edu/icet/ecom/repository/StudentRepository.java:8 | upsert: the row under the record's id becomes the record; a record without an id gets a key not yet in the table; a new key is listed last; the table invariant is kept |
| `Repository.StudentRepository.FindById` | src/main/java/edu/icet/ecom/repository/StudentRepository.java:8 | returns Some exactly when the id is a key, and then its row, whose id is that key |
| `Repository.StudentRepository.FindAll` | src/main/java/edu/icet/ecom/repository/StudentRepository.java:8 | returns every row exactly once, in insertion order, and nothing else |
| `Repository.StudentRepository.Delete` | src/main/java/edu/icet/ecom/repository/StudentRepository.java:8 | removes exactly the row keyed by the record's id and that key from the listing order; a record with no id changes nothing |
| `Service.StudentServiceImpl.constructor` | src/main/java/edu/icet/ecom/service/impl/StudentServiceImpl.java:19-21 | the service works over the store it is given |
| `Service.StudentServiceImpl.CreateStudent` | src/main/java/edu/icet/ecom/service/impl/StudentServiceImpl.java:24-28 | the returned record has the input's name, email and gpa and an id; that id is the input's when given, otherwise one not in use before; the store gains exactly that record under that id and nothing else changes |
| `Service.StudentServiceImpl.GetStudentById` | src/main/java/edu/icet/ecom/service/impl/StudentServiceImpl.java:31-35 | Ok exactly when the id is stored, and then the stored record mapped to the transport shape, with that id; otherwise NotFound carrying that id; the store is not modified |
| `Service.StudentServiceImpl.GetAllStudents` | src/main/java/edu/icet/ecom/service/impl/StudentServiceImpl.java:38-43 | one transport record per stored row, as many as there are rows, in the store's order, each the mapped row; the store is not modified |
| `Service.StudentServiceImpl.UpdateStudent` | src/main/java/edu/icet/ecom/service/impl/StudentServiceImpl.java:46-57 | on a stored id: name, email and gpa are replaced by the input's, the stored id is kept and the input's ignored, the saved row equals the result, and no other row or the order changes; on an absent id: NotFound carrying the id and the store exactly as before |
| `Service.StudentServiceImpl.DeleteStudent` | src/main/java/edu/icet/ecom/service/impl/StudentServiceImpl.java:60-64 | on a stored id: exactly that row is removed and every other row is kept; on an absent id: NotFound carrying the id and the store exactly as before |
| `Scenarios.GetStudentByIdTwice` | src/main/java/edu/icet/ecom/service/impl/StudentServiceImpl.java:31-35 | two gets of the same id with nothing in between return the same result |
| `Scenarios.GetAllStudentsTwice` | src/main/java/edu/icet/ecom/service/impl/StudentServiceImpl.java:38-43 | two listings with nothing in between return the same list |
| `Scenarios.CreateThenGet` | src/main/java/edu/icet/ecom/service/impl/StudentServiceImpl.java:24-35 | a get by the created record's id returns exactly the created record |
| `Scenarios.CreateThenGetAll` | src/main/java/edu/icet/ecom/service/impl/StudentServiceImpl.java:24-43 | creating a record without an id appends it to the listing and keeps the earlier records in order |
| `Scenarios.UpdateThenGet` | src/main/java/edu/icet/ecom/service/impl/StudentServiceImpl.java:46-57 | after an update, a get returns the updated record (or NotFound if the update failed), and a get of any other id is unaffected |
| `Scenarios.DeleteThenGet` | src/main/java/edu/icet/ecom/service/impl/StudentServiceImpl.java:60-64 | after a delete, a get of that id is NotFound, and a get of any other id is unaffected |
| `Scenarios.TestCreateStudent` | src/test/java/edu/icet/ecom/service/StudentServiceTest.java:42-58 | creating John Doe with id 1 returns the same id, name, email and gpa, and the store then holds exactly that record under key 1 |
| `Scenarios.TestGetStudentByIdSuccess` | src/test/java/edu/icet/ecom/service/StudentServiceTest.java:60-74 | with John Doe stored, a get of id 1 succeeds with id 1 and name "John Doe" |
| `Scenarios.TestGetStudentByIdNotFound` | src/test/java/edu/icet/ecom/service/StudentServiceTest.java:76-88 | a get of the absent id 99 is NotFound(99), whose message is "Student not found with id: 99" |
| `Scenarios.TestGetAllStudents` | src/test/java/edu/icet/ecom/service/StudentServiceTest.java:90-108 | with John Doe and Jane Doe stored, the listing has two records, John Doe first and Jane Doe second |
| `Scenarios.TestUpdateStudentSuccess` | src/test/java/edu/icet/ecom/service/StudentServiceTest.java:110-134 | updating id 1 returns id 1 with name "John Updated", email "john.updated@example.com" and gpa 3.8, and exactly that record is saved |
| `Scenarios.TestUpdateStudentNotFound` | src/test/java/edu/icet/ecom/service/StudentServiceTest.java:136-151 | updating the absent id 99 is NotFound(99) with the message "Student not found with id: 99", and the store's rows are unchanged |
| `Scenarios.TestDeleteStudentSuccess` | src/test/java/edu/icet/ecom/service/StudentServiceTest.java:153-165 | deleting the stored id 1 succeeds and leaves the table empty |
| `Scenarios.TestDeleteStudentNotFound` | src/test/java/edu/icet/ecom/service/StudentServiceTest.java:167-180 | deleting the absent id 99 is NotFound(99) with the message "Student not found with id: 99", and the store's rows are unchanged |

## Left out

- HTTP controller (`StudentController`): routing, `ResponseEntity` and the status codes are framework plumbing. The source maps `NotFound` to no HTTP status, so none is modelled.
- Spring wiring and Lombok: dependency injection becomes the service's constructor argument. The generated getters, setters and constructors become datatype fields and record updates.
- JPA internals: SQL, transactions and the id-generation strategy are not visible. `Repository.StudentRepository.Save` assumes that the store assigns a fresh key when the id is null. It uses a counter for that. It also assumes that a record with an id is upserted under that id.
- `findAll` order: the framework does not promise any order. The model assumes first-insertion order. The list test depends only on `getAllStudents` keeping the order that `findAll` returns, which `Records.ToDtos` and `Service.StudentServiceImpl.GetAllStudents` state.
- Aliasing of the managed entity: `updateStudent` mutates the entity returned by `findById` through its setters. The model applies the three setters to a local value copy. The change reaches the store only through `save`, just as the source writes it.
- Null fields: only the nullable `id` is modelled, as `Option<int>`. A null `name`, `email` or `gpa` is modelled only as the ordinary value it is copied as.
- `gpa` is a `Double` that is only copied. It is modelled as `real`, with no floating-point reasoning.
- Integer width: ids are Java `Long`. The model uses unbounded `int`, and no operation does arithmetic on ids. The store's counter is likewise not bounded to 64 bits.
- Concurrency: concurrent requests and last-writer-wins races are outside this sequential model.
- Mockito: the mocks and invocation counting of the test file are not modelled. "Called exactly once" and "never called" become frame conditions on the store in the `Service` contracts. The `Scenarios.Test…` methods restate the test cases as contracts that the verifier checks.
