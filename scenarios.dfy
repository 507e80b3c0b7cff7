/**
  Clients of the service, checked only against the contracts of
  `StudentServiceImpl`: what one operation guarantees to the next, and the
  cases of StudentServiceTest checked against an in-memory store.
 */
module Scenarios {
  import opened Wrappers
  import opened Records
  import opened Repository
  import opened Service

  /** Asking twice for the same id, with nothing in between, gives the same answer. */
  method GetStudentByIdTwice(service: StudentServiceImpl, id: int)
    returns (first: Result<Student>, second: Result<Student>)
    requires service.Valid()
    ensures first == second
  {
    first := service.GetStudentById(id);
    second := service.GetStudentById(id);
  }

  /** Listing twice, with nothing in between, gives the same list. */
  method GetAllStudentsTwice(service: StudentServiceImpl)
    returns (first: seq<Student>, second: seq<Student>)
    requires service.Valid()
    ensures first == second
  {
    first := service.GetAllStudents();
    second := service.GetAllStudents();
  }

  /** A created record can be read back by its id, exactly as it was returned. */
  method CreateThenGet(service: StudentServiceImpl, student: Student)
    returns (created: Student, found: Result<Student>)
    requires service.Valid()
    modifies service.studentRepository
    ensures found == Ok(created)
  {
    created := service.CreateStudent(student);
    found := service.GetStudentById(created.id.value);
  }

  /** A record created without an id is listed last, after all earlier records in their old order. */
  method CreateThenGetAll(service: StudentServiceImpl, student: Student)
    returns (before: seq<Student>, created: Student, after: seq<Student>)
    requires service.Valid()
    requires student.id.None?
    modifies service.studentRepository
    ensures after == before + [created]
  {
    before := service.GetAllStudents();
    created := service.CreateStudent(student);
    after := service.GetAllStudents();
  }

  /** After an update, getting the id returns the updated record, and every other id reads as before. */
  method UpdateThenGet(service: StudentServiceImpl, id: int, student: Student, other: int)
    returns (updated: Result<Student>, found: Result<Student>, otherBefore: Result<Student>, otherAfter: Result<Student>)
    requires service.Valid()
    requires other != id
    modifies service.studentRepository
    ensures updated.Ok? ==> found == updated
    ensures updated.NotFound? ==> found == NotFound(id)
    ensures otherAfter == otherBefore
  {
    otherBefore := service.GetStudentById(other);
    updated := service.UpdateStudent(id, student);
    found := service.GetStudentById(id);
    otherAfter := service.GetStudentById(other);
  }

  /** After a delete, the id is gone, and every other id reads as before. */
  method DeleteThenGet(service: StudentServiceImpl, id: int, other: int)
    returns (deleted: Result<()>, found: Result<Student>, otherBefore: Result<Student>, otherAfter: Result<Student>)
    requires service.Valid()
    requires other != id
    modifies service.studentRepository
    ensures found == NotFound(id)
    ensures otherAfter == otherBefore
  {
    otherBefore := service.GetStudentById(other);
    deleted := service.DeleteStudent(id);
    found := service.GetStudentById(id);
    otherAfter := service.GetStudentById(other);
  }

  /*
    The cases of StudentServiceTest, one method each, against a fresh
    in-memory store holding the records the mock would have returned.
   */

  const John := Student(Some(1), "John Doe", "john@example.com", 3.75)
  const Jane := Student(Some(2), "Jane Doe", "jane@example.com", 3.9)

  /** testCreateStudent: id, name, email and gpa come back as given, and exactly that record is stored. */
  method TestCreateStudent() returns (saved: Student, rows: map<int, StudentEntity>)
    ensures saved == John
    ensures rows == map[1 := ToEntity(John)]
  {
    var repository := new StudentRepository();
    var service := new StudentServiceImpl(repository);
    saved := service.CreateStudent(John);
    rows := repository.rows;
  }

  /** testGetStudentById_Success: the stored record with id 1 is found, with its name. */
  method TestGetStudentByIdSuccess() returns (found: Result<Student>)
    ensures found.Ok? && found.value.id == Some(1) && found.value.name == "John Doe"
  {
    var repository := new StudentRepository();
    var service := new StudentServiceImpl(repository);
    var _ := service.CreateStudent(John);
    found := service.GetStudentById(1);
  }

  /** testGetStudentById_NotFound: id 99 is not found, with the message naming 99. */
  method TestGetStudentByIdNotFound() returns (missing: Result<Student>)
    ensures missing == NotFound(99)
    ensures missing.Message() == "Student not found with id: 99"
  {
    var repository := new StudentRepository();
    var service := new StudentServiceImpl(repository);
    var _ := service.CreateStudent(John);
    missing := service.GetStudentById(99);
    assert Decimal.IntToString(99) == "99";
  }

  /** testGetAllStudents: both records, in store order. */
  method TestGetAllStudents() returns (students: seq<Student>)
    ensures |students| == 2
    ensures students[0].name == "John Doe" && students[1].name == "Jane Doe"
  {
    var repository := new StudentRepository();
    var service := new StudentServiceImpl(repository);
    var _ := service.CreateStudent(John);
    var _ := service.CreateStudent(Jane);
    students := service.GetAllStudents();
  }

  /** testUpdateStudent_Success: the new name, email and gpa are returned and saved under id 1. */
  method TestUpdateStudentSuccess() returns (result: Result<Student>, rows: map<int, StudentEntity>)
    ensures result.Ok? && result.value.id == Some(1)
    ensures result.value.name == "John Updated" && result.value.email == "john.updated@example.com"
    ensures result.value.gpa == 3.8
    ensures rows == map[1 := ToEntity(result.value)]
  {
    var repository := new StudentRepository();
    var service := new StudentServiceImpl(repository);
    var _ := service.CreateStudent(John);
    var update := Student(Some(1), "John Updated", "john.updated@example.com", 3.8);
    result := service.UpdateStudent(1, update);
    rows := repository.rows;
  }

  /** testUpdateStudent_NotFound: id 99 is not found, with the message naming 99, and nothing is saved. */
  method TestUpdateStudentNotFound()
    returns (result: Result<Student>, rowsBefore: map<int, StudentEntity>, rowsAfter: map<int, StudentEntity>)
    ensures result == NotFound(99)
    ensures result.Message() == "Student not found with id: 99"
    ensures rowsAfter == rowsBefore
  {
    var repository := new StudentRepository();
    var service := new StudentServiceImpl(repository);
    var _ := service.CreateStudent(John);
    rowsBefore := repository.rows;
    var update := Student(Some(99), "John Updated", "john.updated@example.com", 3.8);
    result := service.UpdateStudent(99, update);
    rowsAfter := repository.rows;
    assert Decimal.IntToString(99) == "99";
  }

  /** testDeleteStudent_Success: the only stored record is removed. */
  method TestDeleteStudentSuccess() returns (result: Result<()>, rows: map<int, StudentEntity>)
    ensures result.Ok?
    ensures rows == map[]
  {
    var repository := new StudentRepository();
    var service := new StudentServiceImpl(repository);
    var _ := service.CreateStudent(John);
    result := service.DeleteStudent(1);
    rows := repository.rows;
  }

  /** testDeleteStudent_NotFound: id 99 is not found, with the message naming 99, and nothing is deleted. */
  method TestDeleteStudentNotFound()
    returns (result: Result<()>, rowsBefore: map<int, StudentEntity>, rowsAfter: map<int, StudentEntity>)
    ensures result == NotFound(99)
    ensures result.Message() == "Student not found with id: 99"
    ensures rowsAfter == rowsBefore
  {
    var repository := new StudentRepository();
    var service := new StudentServiceImpl(repository);
    var _ := service.CreateStudent(John);
    rowsBefore := repository.rows;
    result := service.DeleteStudent(99);
    rowsAfter := repository.rows;
    assert Decimal.IntToString(99) == "99";
  }
}
