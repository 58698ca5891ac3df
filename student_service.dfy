/** StudentService (service/StudentService.java): student CRUD over the
    student repository, with the duplicate-id, duplicate-email and minimum-age
    checks, and the eligibility test the registration service relies on. */
module StudentServices {
  import opened Common
  import opened Model
  import opened ServiceErrors
  import StudentRepository

  /** The student DTO carries the seven fields of the entity. Its getAge is
      taken to be the entity's: the difference of the calendar years. */
  datatype StudentDTO = StudentDTO(
    studentId: string,
    title: string,
    firstName: string,
    lastName: string,
    dateOfBirth: Date,
    currentSchool: string,
    email: string)

  function DtoAge(d: StudentDTO, today: Date): int
  {
    today.year - d.dateOfBirth.year
  }

  /** The table's primary key: no two rows share a student id. */
  ghost predicate UniqueStudentIds(rows: seq<Student>)
  {
    forall i, j :: 0 <= i < j < |rows| ==> rows[i].studentId != rows[j].studentId
  }

  /** No two rows share an email. The column is not unique in the schema;
      the service's own checks keep it so. */
  ghost predicate UniqueEmails(rows: seq<Student>)
  {
    forall i, j :: 0 <= i < j < |rows| ==> rows[i].email != rows[j].email
  }

  /** findById, as the position of the row with that id. */
  function IndexOfStudent(rows: seq<Student>, studentId: string): (k: Option<nat>)
    ensures k.Some? ==> k.value < |rows| && rows[k.value].studentId == studentId
    ensures k.None? <==> forall i :: 0 <= i < |rows| ==> rows[i].studentId != studentId
  {
    if rows == [] then None
    else if rows[0].studentId == studentId then Some(0)
    else match IndexOfStudent(rows[1..], studentId)
      case None => None
      case Some(k) => Some(k + 1)
  }

  /** existsById. */
  predicate ExistsById(rows: seq<Student>, studentId: string)
  {
    IndexOfStudent(rows, studentId).Some?
  }

  /** convertToDTO. */
  function ConvertToDTO(s: Student): (d: StudentDTO)
    ensures d.studentId == s.studentId && d.title == s.title && d.firstName == s.firstName
    ensures d.lastName == s.lastName && d.dateOfBirth == s.dateOfBirth
    ensures d.currentSchool == s.currentSchool && d.email == s.email
  {
    StudentDTO(s.studentId, s.title, s.firstName, s.lastName, s.dateOfBirth, s.currentSchool, s.email)
  }

  /** convertToEntity, through the seven-argument constructor. */
  function ConvertToEntity(d: StudentDTO): (s: Student)
    ensures s.studentId == d.studentId && s.title == d.title && s.firstName == d.firstName
    ensures s.lastName == d.lastName && s.dateOfBirth == d.dateOfBirth
    ensures s.currentSchool == d.currentSchool && s.email == d.email
  {
    Student(d.studentId, d.title, d.firstName, d.lastName, d.dateOfBirth, d.currentSchool, d.email)
  }

  /** The two conversions are inverse to each other and keep the age. */
  lemma ConversionRoundTrips(s: Student, d: StudentDTO, today: Date)
    ensures ConvertToEntity(ConvertToDTO(s)) == s
    ensures ConvertToDTO(ConvertToEntity(d)) == d
    ensures DtoAge(ConvertToDTO(s), today) == Age(s, today)
  {
  }

  /** isStudentEligible: a known student of at least the minimum age. */
  function IsStudentEligible(rows: seq<Student>, studentId: string, today: Date): (b: bool)
    ensures !ExistsById(rows, studentId) ==> !b
    ensures UniqueStudentIds(rows) ==>
              (b <==> exists i :: 0 <= i < |rows| && rows[i].studentId == studentId
                                  && Age(rows[i], today) >= MinimumAge)
  {
    match IndexOfStudent(rows, studentId)
    case None => false
    case Some(k) => Age(rows[k], today) >= MinimumAge
  }

  /** A student just stored is eligible exactly when old enough. */
  lemma StoredStudentEligibility(rows: seq<Student>, s: Student, today: Date)
    requires !ExistsById(rows, s.studentId)
    ensures IsStudentEligible(rows + [s], s.studentId, today) <==> Age(s, today) >= MinimumAge
  {
    assert IndexOfStudent(rows + [s], s.studentId) == Some(|rows|) by {
      IndexOfAppended(rows, s);
    }
  }

  lemma {:induction false} IndexOfAppended(rows: seq<Student>, s: Student)
    requires !ExistsById(rows, s.studentId)
    ensures IndexOfStudent(rows + [s], s.studentId) == Some(|rows|)
  {
    if rows != [] {
      assert (rows + [s])[1..] == rows[1..] + [s];
      IndexOfAppended(rows[1..], s);
    }
  }

  /** The rejection createStudent throws for a DTO, checked in the source's
      order: the id, then the email, then the age. */
  function CreateRejection(rows: seq<Student>, d: StudentDTO, today: Date): (e: Option<ServiceError>)
    ensures e.None? <==> !ExistsById(rows, d.studentId)
                         && !StudentRepository.ExistsByEmail(rows, d.email)
                         && DtoAge(d, today) >= MinimumAge
    ensures ExistsById(rows, d.studentId) ==> e == Some(StudentAlreadyExists(d.studentId))
    ensures !ExistsById(rows, d.studentId) && StudentRepository.ExistsByEmail(rows, d.email) ==>
              e == Some(EmailAlreadyExists(d.email))
    ensures (!ExistsById(rows, d.studentId) && !StudentRepository.ExistsByEmail(rows, d.email)
             && DtoAge(d, today) < MinimumAge) ==> e == Some(StudentTooYoung)
  {
    if ExistsById(rows, d.studentId) then Some(StudentAlreadyExists(d.studentId))
    else if StudentRepository.ExistsByEmail(rows, d.email) then Some(EmailAlreadyExists(d.email))
    else if DtoAge(d, today) < MinimumAge then Some(StudentTooYoung)
    else None
  }

  /** Every row holding `email` is the row of `studentId`: the email is the
      student's own or nobody's. */
  ghost predicate EmailFreeFor(rows: seq<Student>, studentId: string, email: string)
  {
    forall i :: 0 <= i < |rows| && rows[i].email == email ==> rows[i].studentId == studentId
  }

  /** The rejection updateStudent throws, in the source's order: an unknown
      id, then a changed email that another row already holds, then an age
      under the minimum. A student may keep their own email. */
  function UpdateRejection(rows: seq<Student>, studentId: string, d: StudentDTO, today: Date): (e: Option<ServiceError>)
    ensures !ExistsById(rows, studentId) ==> e == Some(StudentNotFound(studentId))
    ensures (ExistsById(rows, studentId) && rows[IndexOfStudent(rows, studentId).value].email != d.email
             && StudentRepository.ExistsByEmail(rows, d.email)) ==> e == Some(EmailAlreadyExists(d.email))
    ensures (ExistsById(rows, studentId)
             && !(rows[IndexOfStudent(rows, studentId).value].email != d.email
                  && StudentRepository.ExistsByEmail(rows, d.email))
             && DtoAge(d, today) < MinimumAge) ==> e == Some(StudentTooYoung)
    ensures e.None? ==> ExistsById(rows, studentId) && DtoAge(d, today) >= MinimumAge
    ensures e.None? && UniqueEmails(rows) ==> EmailFreeFor(rows, studentId, d.email)
    ensures (UniqueStudentIds(rows) && ExistsById(rows, studentId) && DtoAge(d, today) >= MinimumAge
             && EmailFreeFor(rows, studentId, d.email)) ==> e.None?
  {
    match IndexOfStudent(rows, studentId)
    case None => Some(StudentNotFound(studentId))
    case Some(k) =>
      if rows[k].email != d.email && StudentRepository.ExistsByEmail(rows, d.email) then Some(EmailAlreadyExists(d.email))
      else if DtoAge(d, today) < MinimumAge then Some(StudentTooYoung)
      else None
  }

  /** The row updateStudent saves: every field but the id from the DTO. */
  function UpdatedStudent(existing: Student, d: StudentDTO): (s: Student)
    ensures s.studentId == existing.studentId
    ensures ConvertToDTO(s) == d.(studentId := existing.studentId)
  {
    existing.(title := d.title, firstName := d.firstName, lastName := d.lastName,
              dateOfBirth := d.dateOfBirth, currentSchool := d.currentSchool, email := d.email)
  }

  /** The student service over its repository, the list `students` in
      findAll order. `LocalDate.now()` is the parameter `today`. */
  class StudentService {
    var students: seq<Student>

    ghost predicate Valid()
      reads this
    {
      UniqueStudentIds(students) && UniqueEmails(students)
    }

    constructor ()
      ensures Valid() && students == []
    {
      students := [];
    }

    /** createStudent. */
    method CreateStudent(d: StudentDTO, today: Date) returns (result: Result<StudentDTO, ServiceError>)
      requires Valid()
      modifies this
      ensures Valid()
      ensures var e := CreateRejection(old(students), d, today);
              if e.Some? then result == Failure(e.value) && students == old(students)
              else result == Success(d) && students == old(students) + [ConvertToEntity(d)]
    {
      if ExistsById(students, d.studentId) {
        return Failure(StudentAlreadyExists(d.studentId));
      }
      if StudentRepository.ExistsByEmail(students, d.email) {
        return Failure(EmailAlreadyExists(d.email));
      }
      if DtoAge(d, today) < MinimumAge {
        return Failure(StudentTooYoung);
      }
      var student := ConvertToEntity(d);
      students := students + [student];
      result := Success(ConvertToDTO(student));
    }

    /** updateStudent. */
    method UpdateStudent(studentId: string, d: StudentDTO, today: Date)
      returns (result: Result<StudentDTO, ServiceError>)
      requires Valid()
      modifies this
      ensures Valid()
      ensures var e := UpdateRejection(old(students), studentId, d, today);
              if e.Some? then result == Failure(e.value) && students == old(students)
              else
                var k := IndexOfStudent(old(students), studentId).value;
                students == old(students)[k := UpdatedStudent(old(students)[k], d)]
                && result == Success(d.(studentId := studentId))
    {
      var found := IndexOfStudent(students, studentId);
      if found.None? {
        return Failure(StudentNotFound(studentId));
      }
      var k := found.value;
      if students[k].email != d.email && StudentRepository.ExistsByEmail(students, d.email) {
        return Failure(EmailAlreadyExists(d.email));
      }
      if DtoAge(d, today) < MinimumAge {
        return Failure(StudentTooYoung);
      }
      var updated := UpdatedStudent(students[k], d);
      students := students[k := updated];
      result := Success(ConvertToDTO(updated));
    }

    /** deleteStudent: removes exactly that row. */
    method DeleteStudent(studentId: string) returns (outcome: Outcome<ServiceError>)
      requires Valid()
      modifies this
      ensures Valid()
      ensures !ExistsById(old(students), studentId) ==>
                outcome == Fail(StudentNotFound(studentId)) && students == old(students)
      ensures ExistsById(old(students), studentId) ==>
                var k := IndexOfStudent(old(students), studentId).value;
                outcome == Pass && students == old(students)[..k] + old(students)[k + 1..]
    {
      var found := IndexOfStudent(students, studentId);
      if found.None? {
        return Fail(StudentNotFound(studentId));
      }
      var k := found.value;
      students := students[..k] + students[k + 1..];
      outcome := Pass;
    }
  }
}
