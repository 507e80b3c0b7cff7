/**
  The student service (`StudentServiceImpl`): create, get by id, list, update
  by id and delete by id over the record store. Where the Java code throws a
  `RuntimeException` for a missing id, each operation here returns
  `NotFound(id)`.
 */
module Service {
  import opened Wrappers
  import opened Records
  import opened Repository
  import Decimal

  const NotFoundPrefix: string := "Student not found with id: "

  /** The outcome of a service call: a value, or the not-found failure for an id. */
  datatype Result<T> = Ok(value: T) | NotFound(id: int) {

    /** The exception message: the fixed prefix followed by the id in decimal. */
    function Message(): (message: string)
      requires NotFound?
    {
      NotFoundPrefix + Decimal.IntToString(id)
    }
  }

  /** The message starts with the fixed prefix and ends with exactly the missing id. */
  lemma NotFoundMessageNamesId<T>(r: Result<T>)
    requires r.NotFound?
    ensures |NotFoundPrefix| < |r.Message()|
    ensures r.Message()[..|NotFoundPrefix|] == NotFoundPrefix
    ensures Decimal.ParseInt(r.Message()[|NotFoundPrefix|..]) == Some(r.id)
  {
    var m := r.Message();
    assert m[|NotFoundPrefix|..] == Decimal.IntToString(r.id);
    Decimal.IntToStringRoundTrip(r.id);
  }

  /** Different missing ids give different messages. */
  lemma NotFoundMessageInjective<T>(a: Result<T>, b: Result<T>)
    requires a.NotFound? && b.NotFound?
    ensures a.Message() == b.Message() ==> a.id == b.id
  {
    NotFoundMessageNamesId(a);
    NotFoundMessageNamesId(b);
  }

  class StudentServiceImpl {
    const studentRepository: StudentRepository

    /** Constructor injection of the store. */
    constructor (studentRepository: StudentRepository)
      ensures this.studentRepository == studentRepository
    {
      this.studentRepository := studentRepository;
    }

    ghost predicate Valid()
      reads studentRepository
    {
      studentRepository.Valid()
    }

    /**
      `createStudent`: stores the mapped input and returns the stored record.
      The input's id, when there is one, is kept; otherwise the store assigns a
      fresh one.
     */
    method CreateStudent(student: Student) returns (created: Student)
      requires Valid()
      modifies studentRepository
      ensures Valid()
      ensures created.id.Some?
      ensures created.name == student.name && created.email == student.email && created.gpa == student.gpa
      ensures student.id.Some? ==> created.id == student.id
      ensures student.id.None? ==> created.id.value !in old(studentRepository.rows)
      ensures studentRepository.rows == old(studentRepository.rows)[created.id.value := ToEntity(created)]
      ensures studentRepository.order ==
                if created.id.value in old(studentRepository.rows) then old(studentRepository.order)
                else old(studentRepository.order) + [created.id.value]
    {
      var studentEntity := ToEntity(student);
      var savedEntity := studentRepository.Save(studentEntity);
      created := ToDto(savedEntity);
      EntityRoundTrip(savedEntity);
    }

    /**
      `getStudentById`: the stored record with that id, or `NotFound(id)`.
      It has no `modifies` clause, so it leaves the store as it was.
     */
    method GetStudentById(id: int) returns (r: Result<Student>)
      requires Valid()
      ensures r.Ok? <==> id in studentRepository.rows
      ensures r.Ok? ==> r.value == ToDto(studentRepository.rows[id]) && r.value.id == Some(id)
      ensures r.NotFound? ==> r.id == id
    {
      var found := studentRepository.FindById(id);
      if found.None? {
        return NotFound(id);
      }
      r := Ok(ToDto(found.value));
    }

    /**
      `getAllStudents`: one transport record per stored row, in the store's
      order. It has no `modifies` clause, so it leaves the store as it was.
     */
    method GetAllStudents() returns (students: seq<Student>)
      requires Valid()
      ensures |students| == |studentRepository.rows|
      ensures |students| == |studentRepository.order|
      ensures forall i :: 0 <= i < |students| ==>
                students[i] == ToDto(studentRepository.rows[studentRepository.order[i]])
    {
      var studentEntities := studentRepository.FindAll();
      students := ToDtos(studentEntities);
    }

    /**
      `updateStudent`: for a stored id, overwrites name, email and gpa with the
      input's values (whatever they are), keeps the stored id and ignores the
      input's, saves, and returns the saved record. For a missing id it
      returns `NotFound(id)` and saves nothing.
     */
    method UpdateStudent(id: int, student: Student) returns (r: Result<Student>)
      requires Valid()
      modifies studentRepository
      ensures Valid()
      ensures r.Ok? <==> id in old(studentRepository.rows)
      ensures r.NotFound? ==> r.id == id && unchanged(studentRepository)
      ensures r.Ok? ==> r.value == Student(Some(id), student.name, student.email, student.gpa)
      ensures r.Ok? ==> studentRepository.rows == old(studentRepository.rows)[id := ToEntity(r.value)]
      ensures r.Ok? ==> studentRepository.order == old(studentRepository.order)
    {
      var found := studentRepository.FindById(id);
      if found.None? {
        return NotFound(id);
      }
      var studentEntity := found.value;
      studentEntity := studentEntity.(name := student.name);
      studentEntity := studentEntity.(email := student.email);
      studentEntity := studentEntity.(gpa := student.gpa);
      var updatedEntity := studentRepository.Save(studentEntity);
      r := Ok(ToDto(updatedEntity));
      EntityRoundTrip(updatedEntity);
    }

    /**
      `deleteStudent`: for a stored id, removes exactly that row; for a
      missing id it returns `NotFound(id)` and deletes nothing.
     */
    method DeleteStudent(id: int) returns (r: Result<()>)
      requires Valid()
      modifies studentRepository
      ensures Valid()
      ensures r.Ok? <==> id in old(studentRepository.rows)
      ensures r.NotFound? ==> r.id == id && unchanged(studentRepository)
      ensures r.Ok? ==> studentRepository.rows == old(studentRepository.rows) - {id}
      ensures r.Ok? ==> studentRepository.order == Without(old(studentRepository.order), id)
    {
      var found := studentRepository.FindById(id);
      if found.None? {
        return NotFound(id);
      }
      studentRepository.Delete(found.value);
      r := Ok(());
    }
  }
}
