/** SubjectService (service/SubjectService.java): subject CRUD over the
    subject repository, the availability and prerequisite lookups the
    registration service relies on, and the DTO conversions. */
module SubjectServices {
  import opened Common
  import opened Model
  import opened ServiceErrors
  import SubjectDto

  /** The table's primary key: no two rows share a subject id. */
  ghost predicate UniqueSubjectIds(rows: seq<Subject>)
  {
    forall i, j :: 0 <= i < j < |rows| ==> rows[i].subjectId != rows[j].subjectId
  }

  /** No row records any enrollment. Subjects are stored through the
      constructor (enrollment 0) and nothing on this path ever changes the
      count, so the Spring store keeps this. */
  ghost predicate NoEnrollmentRecorded(rows: seq<Subject>)
  {
    forall i :: 0 <= i < |rows| ==> rows[i].currentEnrollment == 0
  }

  /** findById, as the position of the row with that id. */
  function IndexOfSubject(rows: seq<Subject>, subjectId: string): (k: Option<nat>)
    ensures k.Some? ==> k.value < |rows| && rows[k.value].subjectId == subjectId
    ensures k.None? <==> forall i :: 0 <= i < |rows| ==> rows[i].subjectId != subjectId
  {
    if rows == [] then None
    else if rows[0].subjectId == subjectId then Some(0)
    else match IndexOfSubject(rows[1..], subjectId)
      case None => None
      case Some(k) => Some(k + 1)
  }

  /** existsById. */
  predicate ExistsById(rows: seq<Subject>, subjectId: string)
  {
    IndexOfSubject(rows, subjectId).Some?
  }

  lemma ExistsByIdMeansSomeRow(rows: seq<Subject>, subjectId: string)
    ensures ExistsById(rows, subjectId) <==> exists i :: 0 <= i < |rows| && rows[i].subjectId == subjectId
  {
  }

  /** In a table with unique ids the row found is the only one with that id. */
  lemma IndexOfSubjectIsTheRow(rows: seq<Subject>, i: int)
    requires UniqueSubjectIds(rows) && 0 <= i < |rows|
    ensures IndexOfSubject(rows, rows[i].subjectId) == Some(i)
  {
  }

  // ---------------------------------------------------------------------
  // Conversions
  // ---------------------------------------------------------------------

  /** convertToDTO: all seven fields, the enrollment included. */
  function ConvertToDTO(s: Subject): (d: SubjectDto.SubjectDTO)
    ensures d.subjectId == s.subjectId && d.subjectName == s.subjectName && d.credits == s.credits
    ensures d.instructorName == s.instructorName && d.prerequisiteSubjectId == s.prerequisiteSubjectId
    ensures d.maxCapacity == s.maxCapacity && d.currentEnrollment == s.currentEnrollment
  {
    SubjectDto.NewSubjectDTO(s.subjectId, s.subjectName, s.credits, s.instructorName,
                             s.prerequisiteSubjectId, s.maxCapacity)
      .(currentEnrollment := s.currentEnrollment)
  }

  /** convertToEntity: through the six-argument constructor, so the DTO's
      enrollment is dropped. */
  function ConvertToEntity(d: SubjectDto.SubjectDTO): (s: Subject)
    ensures s.currentEnrollment == 0
  {
    NewSubject(d.subjectId, d.subjectName, d.credits, d.instructorName, d.prerequisiteSubjectId, d.maxCapacity)
  }

  /** A round trip keeps the six constructor fields and resets the enrollment. */
  lemma ConversionRoundTrips(s: Subject, d: SubjectDto.SubjectDTO)
    ensures ConvertToEntity(ConvertToDTO(s)) == s.(currentEnrollment := 0)
    ensures ConvertToDTO(ConvertToEntity(d)) == d.(currentEnrollment := 0)
  {
  }

  /** The DTO's helper methods agree with the entity's. */
  lemma DtoHelpersAgree(s: Subject)
    ensures SubjectDto.IsAvailable(ConvertToDTO(s)) == IsAvailable(s)
    ensures SubjectDto.HasPrerequisite(ConvertToDTO(s)) == HasPrerequisite(s)
    ensures SubjectDto.CourseType(ConvertToDTO(s)) == CourseType(s)
  {
  }

  // ---------------------------------------------------------------------
  // Lookups by id
  // ---------------------------------------------------------------------

  /** isSubjectAvailable: false for an unknown id, otherwise the row's isAvailable. */
  function IsSubjectAvailable(rows: seq<Subject>, subjectId: string): (b: bool)
    ensures !ExistsById(rows, subjectId) ==> !b
    ensures UniqueSubjectIds(rows) ==>
              (b <==> exists i :: 0 <= i < |rows| && rows[i].subjectId == subjectId && IsAvailable(rows[i]))
  {
    match IndexOfSubject(rows, subjectId)
    case None => false
    case Some(k) => IsAvailable(rows[k])
  }

  /** hasPrerequisite(subjectId): false for an unknown id, otherwise the row's hasPrerequisite. */
  function SubjectHasPrerequisite(rows: seq<Subject>, subjectId: string): (b: bool)
    ensures !ExistsById(rows, subjectId) ==> !b
    ensures UniqueSubjectIds(rows) ==>
              (b <==> exists i :: 0 <= i < |rows| && rows[i].subjectId == subjectId && HasPrerequisite(rows[i]))
  {
    match IndexOfSubject(rows, subjectId)
    case None => false
    case Some(k) => HasPrerequisite(rows[k])
  }

  /** getPrerequisiteSubjectId: throws for an unknown id. */
  function GetPrerequisiteSubjectId(rows: seq<Subject>, subjectId: string): (r: Result<Option<string>, ServiceError>)
    ensures r.Failure? <==> !ExistsById(rows, subjectId)
    ensures r.Failure? ==> r.error == SubjectNotFound(subjectId)
    ensures r.Success? ==> exists i :: 0 <= i < |rows| && rows[i].subjectId == subjectId
                                      && rows[i].prerequisiteSubjectId == r.value
  {
    match IndexOfSubject(rows, subjectId)
    case None => Failure(SubjectNotFound(subjectId))
    case Some(k) => Success(rows[k].prerequisiteSubjectId)
  }

  /** The prerequisite check of createSubject and updateSubject fails: a
      non-blank prerequisite id that names no subject. */
  predicate MissingPrerequisite(rows: seq<Subject>, d: SubjectDto.SubjectDTO)
  {
    SubjectDto.HasPrerequisite(d) && !ExistsById(rows, d.prerequisiteSubjectId.value)
  }

  /** The row that updateSubject saves: five fields from the DTO, the id and
      the enrollment from the existing row. */
  function UpdatedSubject(existing: Subject, d: SubjectDto.SubjectDTO): (s: Subject)
    ensures s.subjectId == existing.subjectId && s.currentEnrollment == existing.currentEnrollment
    ensures s.subjectName == d.subjectName && s.credits == d.credits && s.instructorName == d.instructorName
    ensures s.prerequisiteSubjectId == d.prerequisiteSubjectId && s.maxCapacity == d.maxCapacity
  {
    existing.(subjectName := d.subjectName, credits := d.credits, instructorName := d.instructorName,
              prerequisiteSubjectId := d.prerequisiteSubjectId, maxCapacity := d.maxCapacity)
  }

  /** The subject service over its repository, the list `subjects` in
      findAll order. */
  class SubjectService {
    var subjects: seq<Subject>

    ghost predicate Valid()
      reads this
    {
      UniqueSubjectIds(subjects) && NoEnrollmentRecorded(subjects)
    }

    constructor ()
      ensures Valid() && subjects == []
    {
      subjects := [];
    }

    /** createSubject. */
    method CreateSubject(d: SubjectDto.SubjectDTO) returns (result: Result<SubjectDto.SubjectDTO, ServiceError>)
      requires Valid()
      modifies this
      ensures Valid()
      ensures ExistsById(old(subjects), d.subjectId) ==>
                result == Failure(SubjectAlreadyExists(d.subjectId)) && subjects == old(subjects)
      ensures !ExistsById(old(subjects), d.subjectId) && MissingPrerequisite(old(subjects), d) ==>
                result == Failure(PrerequisiteNotFound(d.prerequisiteSubjectId.value)) && subjects == old(subjects)
      ensures !ExistsById(old(subjects), d.subjectId) && !MissingPrerequisite(old(subjects), d) ==>
                result == Success(d.(currentEnrollment := 0))
                && subjects == old(subjects) + [ConvertToEntity(d)]
    {
      if ExistsById(subjects, d.subjectId) {
        return Failure(SubjectAlreadyExists(d.subjectId));
      }
      if SubjectDto.HasPrerequisite(d) {
        if !ExistsById(subjects, d.prerequisiteSubjectId.value) {
          return Failure(PrerequisiteNotFound(d.prerequisiteSubjectId.value));
        }
      }
      var subject := ConvertToEntity(d);
      subjects := subjects + [subject];
      result := Success(ConvertToDTO(subject));
    }

    /** updateSubject. The new maximum capacity is not checked against the
        current enrollment. */
    method UpdateSubject(subjectId: string, d: SubjectDto.SubjectDTO)
      returns (result: Result<SubjectDto.SubjectDTO, ServiceError>)
      requires Valid()
      modifies this
      ensures Valid()
      ensures !ExistsById(old(subjects), subjectId) ==>
                result == Failure(SubjectNotFound(subjectId)) && subjects == old(subjects)
      ensures ExistsById(old(subjects), subjectId) && MissingPrerequisite(old(subjects), d) ==>
                result == Failure(PrerequisiteNotFound(d.prerequisiteSubjectId.value)) && subjects == old(subjects)
      ensures ExistsById(old(subjects), subjectId) && !MissingPrerequisite(old(subjects), d) ==>
                var k := IndexOfSubject(old(subjects), subjectId).value;
                subjects == old(subjects)[k := UpdatedSubject(old(subjects)[k], d)]
                && result == Success(ConvertToDTO(subjects[k]))
    {
      var found := IndexOfSubject(subjects, subjectId);
      if found.None? {
        return Failure(SubjectNotFound(subjectId));
      }
      var k := found.value;
      if SubjectDto.HasPrerequisite(d) {
        if !ExistsById(subjects, d.prerequisiteSubjectId.value) {
          return Failure(PrerequisiteNotFound(d.prerequisiteSubjectId.value));
        }
      }
      var updated := UpdatedSubject(subjects[k], d);
      subjects := subjects[k := updated];
      result := Success(ConvertToDTO(updated));
    }

    /** deleteSubject: removes exactly that row; registrations and subjects
        naming it as their prerequisite are not looked at. */
    method DeleteSubject(subjectId: string) returns (outcome: Outcome<ServiceError>)
      requires Valid()
      modifies this
      ensures Valid()
      ensures !ExistsById(old(subjects), subjectId) ==>
                outcome == Fail(SubjectNotFound(subjectId)) && subjects == old(subjects)
      ensures ExistsById(old(subjects), subjectId) ==>
                var k := IndexOfSubject(old(subjects), subjectId).value;
                outcome == Pass && subjects == old(subjects)[..k] + old(subjects)[k + 1..]
      ensures forall x :: x in subjects <==> x in old(subjects) && x.subjectId != subjectId
    {
      var found := IndexOfSubject(subjects, subjectId);
      if found.None? {
        return Fail(SubjectNotFound(subjectId));
      }
      var k := found.value;
      ghost var before := subjects;
      subjects := subjects[..k] + subjects[k + 1..];
      forall x | x in before && x.subjectId != subjectId
        ensures x in subjects
      {
        var i :| 0 <= i < |before| && before[i] == x;
        if i < k {
          assert subjects[i] == x;
        } else {
          assert i != k;
          assert subjects[i - 1] == x;
        }
      }
      outcome := Pass;
    }

    /** updateEnrollmentCount: finds the subject (throwing for an unknown id)
        and saves it back unchanged. Saving an unchanged row changes nothing,
        so this method has no modifies clause at all. */
    method UpdateEnrollmentCount(subjectId: string) returns (outcome: Outcome<ServiceError>)
      ensures outcome == Pass <==> exists i :: 0 <= i < |subjects| && subjects[i].subjectId == subjectId
      ensures outcome != Pass ==> outcome == Fail(SubjectNotFound(subjectId))
    {
      var found := IndexOfSubject(subjects, subjectId);
      if found.None? {
        return Fail(SubjectNotFound(subjectId));
      }
      outcome := Pass;
    }
  }
}
