/**
  The two shapes of a student record and the field-copy mappings between them
  (`mapToDTO` and `mapToEntity` in StudentServiceImpl).
 */
module Records {
  import opened Wrappers

  /**
    The grade point average, a Java `Double`. The service only copies it and
    never computes with it, so no floating-point behaviour is modelled.
   */
  type Gpa = real

  /** The transport shape (`edu.icet.ecom.dto.Student`). `id` is a nullable `Long`. */
  datatype Student = Student(id: Option<int>, name: string, email: string, gpa: Gpa)

  /** The persisted shape (`StudentEntity`), with the same four fields; `id` is `None` until saved. */
  datatype StudentEntity = StudentEntity(id: Option<int>, name: string, email: string, gpa: Gpa)

  /** `mapToDTO`: copies the four fields of a persisted record into a transport record. */
  function ToDto(studentEntity: StudentEntity): (student: Student) {
    Student(studentEntity.id, studentEntity.name, studentEntity.email, studentEntity.gpa)
  }

  /** `mapToEntity`: copies the four fields of a transport record into a persisted record. */
  function ToEntity(student: Student): (studentEntity: StudentEntity) {
    StudentEntity(student.id, student.name, student.email, student.gpa)
  }

  /**
    The stream `map(this::mapToDTO)` followed by `collect(toList())`:
    one transport record per persisted record, in the same order.
   */
  function ToDtos(studentEntities: seq<StudentEntity>): (students: seq<Student>)
    ensures |students| == |studentEntities|
    ensures forall i :: 0 <= i < |students| ==> students[i] == ToDto(studentEntities[i])
  {
    if studentEntities == [] then []
    else [ToDto(studentEntities[0])] + ToDtos(studentEntities[1..])
  }

  /** Both mappings copy every field unchanged. */
  lemma MappingsCopyFields(student: Student, studentEntity: StudentEntity)
    ensures ToEntity(student).id == student.id && ToEntity(student).name == student.name
    ensures ToEntity(student).email == student.email && ToEntity(student).gpa == student.gpa
    ensures ToDto(studentEntity).id == studentEntity.id && ToDto(studentEntity).name == studentEntity.name
    ensures ToDto(studentEntity).email == studentEntity.email && ToDto(studentEntity).gpa == studentEntity.gpa
  {
  }

  /** Storing a transport record and reading it back loses nothing. */
  lemma DtoRoundTrip(student: Student)
    ensures ToDto(ToEntity(student)) == student
  {
  }

  /** Reading a persisted record out and storing it back loses nothing. */
  lemma EntityRoundTrip(studentEntity: StudentEntity)
    ensures ToEntity(ToDto(studentEntity)) == studentEntity
  {
  }

  /** Two persisted records map to the same transport record only if they are equal. */
  lemma ToDtoInjective(a: StudentEntity, b: StudentEntity)
    ensures ToDto(a) == ToDto(b) ==> a == b
  {
  }
}
