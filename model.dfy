/** The entities: students, subjects and registrations, with the helper
    methods the entity classes define (model/Student.java, model/Subject.java,
    model/Registration.java; the console application's inner classes of the
    same names have the same fields and helpers).

    Entities are values here. In the source each entity object is held by one
    map or repository entry only, so updating one of its fields in place is
    the same as storing an updated value under the same key. */
module Model {
  import opened Common

  /** RegistrationStatus. */
  datatype Status = Active | Cancelled | Completed

  datatype Student = Student(
    studentId: string,
    title: string,
    firstName: string,
    lastName: string,
    dateOfBirth: Date,
    currentSchool: string,
    email: string)

  /** `prerequisiteSubjectId` is None where the source holds null; a maximum
      capacity of -1 means unlimited. */
  datatype Subject = Subject(
    subjectId: string,
    subjectName: string,
    credits: int,
    instructorName: string,
    prerequisiteSubjectId: Option<string>,
    maxCapacity: int,
    currentEnrollment: int)

  /** `id` is None until the persistence layer (or the console's counter)
      assigns one. The registration timestamp is not modelled. */
  datatype Registration = Registration(
    id: Option<int>,
    studentId: string,
    subjectId: string,
    status: Status)

  /** The age from which a student may register. */
  const MinimumAge := 15

  const FacultyCourse := "Faculty Course"
  const GeneralEducationCourse := "General Education Course"

  // ---------------------------------------------------------------------
  // Identifier patterns (the @Pattern constraints)
  // ---------------------------------------------------------------------

  /** `^69\d{6}$`. */
  predicate ValidStudentId(id: string)
  {
    |id| == 8 && StartsWith(id, "69") && AllDigits(id[2..])
  }

  /** `^(0550|9069)\d{4}$`. */
  predicate ValidSubjectId(id: string)
  {
    |id| == 8 && (StartsWith(id, "0550") || StartsWith(id, "9069")) && AllDigits(id[4..])
  }

  /** A valid subject id carries exactly one of the two prefixes. */
  lemma ValidSubjectIdHasOnePrefix(id: string)
    requires ValidSubjectId(id)
    ensures StartsWith(id, "0550") != StartsWith(id, "9069")
  {
    assert StartsWith(id, "0550") ==> id[0] == '0';
    assert StartsWith(id, "9069") ==> id[0] == '9';
  }

  /** No string is both a valid student id and a valid subject id. */
  lemma StudentAndSubjectIdsDisjoint(id: string)
    requires ValidStudentId(id)
    ensures !ValidSubjectId(id)
  {
    assert id[..2] == "69";
    assert id[..4][0] == id[0] == '6';
  }

  // ---------------------------------------------------------------------
  // Student
  // ---------------------------------------------------------------------

  /** getAge: the difference of the calendar years only. */
  function Age(s: Student, today: Date): int
  {
    today.year - s.dateOfBirth.year
  }

  /** Month and day of birth play no part in the age. */
  lemma AgeIgnoresMonthAndDay(s: Student, today: Date, month: int, day: int)
    ensures Age(s.(dateOfBirth := Date(s.dateOfBirth.year, month, day)), today) == Age(s, today)
    ensures Age(s, today) >= MinimumAge <==> s.dateOfBirth.year <= today.year - MinimumAge
  {
  }

  /** getFullName. */
  function FullName(s: Student): string
  {
    s.title + " " + s.firstName + " " + s.lastName
  }

  /** The position of the first space in `s`, or |s| when there is none. */
  function FirstSpace(s: string): (k: nat)
    ensures k <= |s|
    ensures forall i :: 0 <= i < k ==> s[i] != ' '
    ensures k < |s| ==> s[k] == ' '
  {
    if s == [] then 0
    else if s[0] == ' ' then 0
    else 1 + FirstSpace(s[1..])
  }

  lemma {:induction false} FirstSpaceAfterWord(a: string, b: string)
    requires ' ' !in a
    ensures FirstSpace(a + " " + b) == |a|
  {
    if a != [] {
      assert (a + " " + b)[1..] == a[1..] + " " + b;
      FirstSpaceAfterWord(a[1..], b);
    }
  }

  lemma SplitAtFirstSpace(a: string, b: string, x: string, y: string)
    requires ' ' !in a && ' ' !in x
    requires a + " " + b == x + " " + y
    ensures a == x && b == y
  {
    var s := a + " " + b;
    FirstSpaceAfterWord(a, b);
    FirstSpaceAfterWord(x, y);
    assert a == s[..|a|] == x;
    assert b == s[|a| + 1..] == y;
  }

  /** When neither title nor first name contains a space, the full name
      determines title, first name and last name. */
  lemma FullNameDeterminesParts(s: Student, t: Student)
    requires ' ' !in s.title && ' ' !in s.firstName
    requires ' ' !in t.title && ' ' !in t.firstName
    requires FullName(s) == FullName(t)
    ensures s.title == t.title && s.firstName == t.firstName && s.lastName == t.lastName
  {
    assert FullName(s) == s.title + " " + (s.firstName + " " + s.lastName);
    assert FullName(t) == t.title + " " + (t.firstName + " " + t.lastName);
    SplitAtFirstSpace(s.title, s.firstName + " " + s.lastName, t.title, t.firstName + " " + t.lastName);
    SplitAtFirstSpace(s.firstName, s.lastName, t.firstName, t.lastName);
  }

  // ---------------------------------------------------------------------
  // Subject
  // ---------------------------------------------------------------------

  /** The six-argument constructor: the enrollment always starts at zero. */
  function NewSubject(subjectId: string, subjectName: string, credits: int, instructorName: string,
                      prerequisiteSubjectId: Option<string>, maxCapacity: int): (s: Subject)
    ensures s.currentEnrollment == 0
    ensures s.subjectId == subjectId && s.subjectName == subjectName && s.credits == credits
    ensures s.instructorName == instructorName && s.prerequisiteSubjectId == prerequisiteSubjectId
    ensures s.maxCapacity == maxCapacity
  {
    Subject(subjectId, subjectName, credits, instructorName, prerequisiteSubjectId, maxCapacity, 0)
  }

  /** isAvailable: unlimited, or a free seat left. */
  predicate IsAvailable(s: Subject)
  {
    s.maxCapacity == -1 || s.currentEnrollment < s.maxCapacity
  }

  /** hasPrerequisite: a prerequisite id that is neither null nor blank. */
  predicate HasPrerequisite(s: Subject)
  {
    s.prerequisiteSubjectId.Some? && !IsBlank(s.prerequisiteSubjectId.value)
  }

  /** getCourseType: decided by the "0550" prefix alone. */
  function CourseType(s: Subject): string
  {
    if StartsWith(s.subjectId, "0550") then FacultyCourse else GeneralEducationCourse
  }

  /** What availability means for the three kinds of capacity: an unlimited
      subject is always available, a capacity of 0 (admitted by `@Min(-1)`)
      never is, and a positive capacity leaves room until it is reached. */
  lemma AvailabilityByCapacity(s: Subject)
    requires s.currentEnrollment >= 0
    ensures s.maxCapacity == -1 ==> IsAvailable(s)
    ensures s.maxCapacity == 0 ==> !IsAvailable(s)
    ensures s.maxCapacity > 0 ==> (IsAvailable(s) <==> s.currentEnrollment < s.maxCapacity)
  {
  }

  /** A null, empty or whitespace-only prerequisite id means "no prerequisite",
      and any other id, every valid subject id among them, is a prerequisite. */
  lemma NoPrerequisiteWhenNullOrBlank(s: Subject, id: string)
    ensures !HasPrerequisite(s.(prerequisiteSubjectId := None))
    ensures !HasPrerequisite(s.(prerequisiteSubjectId := Some("")))
    ensures HasPrerequisite(s.(prerequisiteSubjectId := Some(id))) <==> !IsBlank(id)
    ensures ValidSubjectId(id) ==> HasPrerequisite(s.(prerequisiteSubjectId := Some(id)))
  {
    if ValidSubjectId(id) {
      assert id[0] == id[..4][0] && id[0] in "09";
    }
  }

  /** Over valid ids the course type is Faculty exactly for the "0550"
      prefix and General Education exactly for the "9069" prefix. */
  lemma CourseTypeOfValidId(s: Subject)
    requires ValidSubjectId(s.subjectId)
    ensures CourseType(s) == FacultyCourse <==> StartsWith(s.subjectId, "0550")
    ensures CourseType(s) == GeneralEducationCourse <==> StartsWith(s.subjectId, "9069")
  {
    ValidSubjectIdHasOnePrefix(s.subjectId);
    assert FacultyCourse != GeneralEducationCourse by {
      assert |FacultyCourse| != |GeneralEducationCourse|;
    }
  }

  // ---------------------------------------------------------------------
  // Registration
  // ---------------------------------------------------------------------

  /** The two-argument constructor: no id yet, status ACTIVE. */
  function NewRegistration(studentId: string, subjectId: string): (r: Registration)
    ensures r.id == None && r.status == Active
    ensures r.studentId == studentId && r.subjectId == subjectId
  {
    Registration(None, studentId, subjectId, Active)
  }

  /** setStatus: only the status changes. */
  function SetStatus(r: Registration, status: Status): (r': Registration)
    ensures r'.status == status
    ensures r'.id == r.id && r'.studentId == r.studentId && r'.subjectId == r.subjectId
  {
    r.(status := status)
  }
}
