/** RegistrationService (service/RegistrationService.java): registering a
    student for a subject, cancelling and completing registrations, and the
    list of subjects offered to a student. It reads the student and subject
    tables through the other two services and owns the registration table. */
module RegistrationServices {
  import opened Common
  import opened Model
  import opened ServiceErrors
  import opened Seqs
  import RegistrationRepository
  import StudentServices
  import SubjectServices

  /** The identity column: the registration in position i has id i + 1. No
      operation of the service removes a registration. */
  ghost predicate IdsArePositions(rows: seq<Registration>)
  {
    forall i :: 0 <= i < |rows| ==> rows[i].id == Some(i + 1)
  }

  /** At most one ACTIVE registration per student and subject. */
  ghost predicate OneActivePerPair(rows: seq<Registration>)
  {
    forall i, j :: 0 <= i < j < |rows| && rows[i].status == Active && rows[j].status == Active
                   ==> rows[i].studentId != rows[j].studentId || rows[i].subjectId != rows[j].subjectId
  }

  /** findById on the registration table, as a position. */
  function IndexOfRegistration(rows: seq<Registration>, registrationId: int): (k: Option<nat>)
    ensures k.Some? ==> k.value < |rows| && rows[k.value].id == Some(registrationId)
    ensures k.Some? ==> forall i :: 0 <= i < k.value ==> rows[i].id != Some(registrationId)
    ensures k.None? <==> forall i :: 0 <= i < |rows| ==> rows[i].id != Some(registrationId)
  {
    if rows == [] then None
    else if rows[0].id == Some(registrationId) then Some(0)
    else match IndexOfRegistration(rows[1..], registrationId)
      case None => None
      case Some(k) => Some(k + 1)
  }

  /** With identity ids, registration n sits in position n - 1. */
  lemma IndexOfRegistrationByPosition(rows: seq<Registration>, registrationId: int)
    requires IdsArePositions(rows)
    ensures IndexOfRegistration(rows, registrationId)
            == if 1 <= registrationId <= |rows| then Some(registrationId - 1) else None
  {
    if 1 <= registrationId <= |rows| {
      assert rows[registrationId - 1].id == Some(registrationId);
      var k := IndexOfRegistration(rows, registrationId).value;
      assert rows[k].id == Some(k + 1);
    }
  }

  /** hasCompletedPrerequisite: some registration of the student for the
      prerequisite subject is COMPLETED. */
  function HasCompletedPrerequisite(rows: seq<Registration>, studentId: string, prerequisiteId: string): (b: bool)
    ensures b <==> exists i :: 0 <= i < |rows| && rows[i].studentId == studentId
                               && rows[i].subjectId == prerequisiteId && rows[i].status == Completed
  {
    var pair := RegistrationRepository.FindByStudentIdAndSubjectId(rows, studentId, prerequisiteId);
    var completed := exists x | x in pair :: x.status == Completed;
    assert completed ==> exists i :: 0 <= i < |rows| && rows[i].studentId == studentId
                                     && rows[i].subjectId == prerequisiteId && rows[i].status == Completed by {
      if completed {
        var x :| x in pair && x.status == Completed;
        assert x in rows;
      }
    }
    completed
  }

  /** The rejection registerStudent throws, checked in the source's order:
      eligibility of the student, availability of the subject, an ACTIVE
      registration of the pair, then the prerequisite. */
  function RegisterRejection(students: seq<Student>, subjects: seq<Subject>, rows: seq<Registration>,
                             today: Date, studentId: string, subjectId: string): (e: Option<ServiceError>)
    ensures e.None? <==>
              StudentServices.IsStudentEligible(students, studentId, today)
              && SubjectServices.IsSubjectAvailable(subjects, subjectId)
              && !RegistrationRepository.ExistsByStudentIdAndSubjectIdAndStatus(rows, studentId, subjectId, Active)
              && (SubjectServices.SubjectHasPrerequisite(subjects, subjectId) ==>
                    var p := SubjectServices.GetPrerequisiteSubjectId(subjects, subjectId);
                    p.Success? && p.value.Some? && HasCompletedPrerequisite(rows, studentId, p.value.value))
    ensures !StudentServices.IsStudentEligible(students, studentId, today) ==> e == Some(StudentNotEligible)
    ensures (StudentServices.IsStudentEligible(students, studentId, today)
             && !SubjectServices.IsSubjectAvailable(subjects, subjectId)) ==> e == Some(SubjectNotAvailable)
    ensures (StudentServices.IsStudentEligible(students, studentId, today)
             && SubjectServices.IsSubjectAvailable(subjects, subjectId)
             && RegistrationRepository.ExistsByStudentIdAndSubjectIdAndStatus(rows, studentId, subjectId, Active)) ==>
              e == Some(AlreadyRegistered)
    ensures (StudentServices.IsStudentEligible(students, studentId, today)
             && SubjectServices.IsSubjectAvailable(subjects, subjectId)
             && !RegistrationRepository.ExistsByStudentIdAndSubjectIdAndStatus(rows, studentId, subjectId, Active)
             && SubjectServices.SubjectHasPrerequisite(subjects, subjectId)
             && !HasCompletedPrerequisite(rows, studentId,
                                          SubjectServices.GetPrerequisiteSubjectId(subjects, subjectId).value.value)) ==>
              e == Some(PrerequisiteNotCompleted(SubjectServices.GetPrerequisiteSubjectId(subjects, subjectId).value.value))
    ensures e.Some? && e.value.PrerequisiteNotCompleted? ==>
              SubjectServices.SubjectHasPrerequisite(subjects, subjectId)
              && SubjectServices.GetPrerequisiteSubjectId(subjects, subjectId) == Success(Some(e.value.prerequisiteId))
              && !HasCompletedPrerequisite(rows, studentId, e.value.prerequisiteId)
    ensures e == Some(AlreadyRegistered) ==>
              exists i :: 0 <= i < |rows| && rows[i].studentId == studentId && rows[i].subjectId == subjectId
                          && rows[i].status == Active
  {
    if !StudentServices.IsStudentEligible(students, studentId, today) then Some(StudentNotEligible)
    else if !SubjectServices.IsSubjectAvailable(subjects, subjectId) then Some(SubjectNotAvailable)
    else if RegistrationRepository.ExistsByStudentIdAndSubjectIdAndStatus(rows, studentId, subjectId, Active) then
      Some(AlreadyRegistered)
    else
      var k := SubjectServices.IndexOfSubject(subjects, subjectId).value;
      if HasPrerequisite(subjects[k])
         && !HasCompletedPrerequisite(rows, studentId, subjects[k].prerequisiteSubjectId.value)
      then Some(PrerequisiteNotCompleted(subjects[k].prerequisiteSubjectId.value))
      else None
  }

  /** Every subject that has a row is available so long as no enrollment is
      recorded, and the service never records one: the capacity of a subject
      with a positive maximum is never reached, however many ACTIVE
      registrations it has. */
  lemma AvailabilityIgnoresRegistrations(subjects: seq<Subject>, subjectId: string)
    requires SubjectServices.UniqueSubjectIds(subjects) && SubjectServices.NoEnrollmentRecorded(subjects)
    ensures SubjectServices.IsSubjectAvailable(subjects, subjectId) <==>
              exists i :: 0 <= i < |subjects| && subjects[i].subjectId == subjectId
                          && (subjects[i].maxCapacity == -1 || subjects[i].maxCapacity > 0)
  {
  }

  /** getAvailableSubjectsForStudent: the ids of all subjects in table order,
      less those the student holds an ACTIVE registration for. Neither the
      capacity nor the prerequisite is looked at. */
  function GetAvailableSubjectsForStudent(subjects: seq<Subject>, rows: seq<Registration>, studentId: string)
    : (r: seq<string>)
    ensures forall id :: id in r <==>
              (exists i :: 0 <= i < |subjects| && subjects[i].subjectId == id)
              && !RegistrationRepository.ExistsByStudentIdAndSubjectIdAndStatus(rows, studentId, id, Active)
    ensures IsSubsequence(r, Map(subjects, (s: Subject) => s.subjectId))
  {
    var allSubjectIds := Map(subjects, (s: Subject) => s.subjectId);
    var active := RegistrationRepository.FindActiveRegistrationsByStudentId(rows, studentId);
    var registeredSubjectIds := Map(active, (x: Registration) => x.subjectId);
    assert forall id :: id in registeredSubjectIds <==>
             RegistrationRepository.ExistsByStudentIdAndSubjectIdAndStatus(rows, studentId, id, Active) by {
      forall id
        ensures id in registeredSubjectIds <==>
                RegistrationRepository.ExistsByStudentIdAndSubjectIdAndStatus(rows, studentId, id, Active)
      {
        if id in registeredSubjectIds {
          var j :| 0 <= j < |active| && registeredSubjectIds[j] == id;
          assert active[j] in rows;
        }
        if RegistrationRepository.ExistsByStudentIdAndSubjectIdAndStatus(rows, studentId, id, Active) {
          var i :| 0 <= i < |rows| && rows[i].studentId == studentId && rows[i].subjectId == id
                   && rows[i].status == Active;
          assert rows[i] in active;
          var j :| 0 <= j < |active| && active[j] == rows[i];
          assert registeredSubjectIds[j] == id;
        }
      }
    }
    Filter(allSubjectIds, (id: string) => id !in registeredSubjectIds)
  }

  /** What an operation on the registration table returns, and the table it
      leaves behind. */
  datatype Step = Step(result: Result<Registration, ServiceError>, rows: seq<Registration>)

  /** cancelRegistration on the table: an unknown id and a registration that
      is not ACTIVE are refused; so is one whose subject row is gone, because
      the enrollment update that follows throws and the transaction rolls the
      status change back. Otherwise only that registration's status changes,
      to CANCELLED. */
  function CancelStep(rows: seq<Registration>, subjects: seq<Subject>, registrationId: int): (s: Step)
    ensures s.result.Failure? ==> s.rows == rows
    ensures s.result.Success? <==>
              var k := IndexOfRegistration(rows, registrationId);
              k.Some? && rows[k.value].status == Active && SubjectServices.ExistsById(subjects, rows[k.value].subjectId)
    ensures s.result.Success? ==>
              var k := IndexOfRegistration(rows, registrationId).value;
              s.result.value == SetStatus(rows[k], Cancelled) && s.rows == rows[k := s.result.value]
  {
    match IndexOfRegistration(rows, registrationId)
    case None => Step(Failure(RegistrationNotFound(registrationId)), rows)
    case Some(k) =>
      if rows[k].status != Active then Step(Failure(RegistrationNotActive), rows)
      else if !SubjectServices.ExistsById(subjects, rows[k].subjectId) then
        Step(Failure(SubjectNotFound(rows[k].subjectId)), rows)
      else
        var updated := SetStatus(rows[k], Cancelled);
        Step(Success(updated), rows[k := updated])
  }

  /** completeRegistration on the table: the same refusals as cancel, except
      that the subject is never looked at; otherwise only that
      registration's status changes, to COMPLETED. */
  function CompleteStep(rows: seq<Registration>, registrationId: int): (s: Step)
    ensures s.result.Failure? ==> s.rows == rows
    ensures s.result.Success? <==>
              var k := IndexOfRegistration(rows, registrationId);
              k.Some? && rows[k.value].status == Active
    ensures s.result.Success? ==>
              var k := IndexOfRegistration(rows, registrationId).value;
              s.result.value == SetStatus(rows[k], Completed) && s.rows == rows[k := s.result.value]
  {
    match IndexOfRegistration(rows, registrationId)
    case None => Step(Failure(RegistrationNotFound(registrationId)), rows)
    case Some(k) =>
      if rows[k].status != Active then Step(Failure(RegistrationNotActive), rows)
      else
        var updated := SetStatus(rows[k], Completed);
        Step(Success(updated), rows[k := updated])
  }

  /** Replacing a row by one with the same id does not move findById. */
  lemma IndexOfRegistrationAfterUpdate(rows: seq<Registration>, registrationId: int, r: Registration)
    requires IndexOfRegistration(rows, registrationId).Some? && r.id == Some(registrationId)
    ensures var k := IndexOfRegistration(rows, registrationId).value;
            IndexOfRegistration(rows[k := r], registrationId) == Some(k)
  {
    var k := IndexOfRegistration(rows, registrationId).value;
    var j := IndexOfRegistration(rows[k := r], registrationId);
    assert rows[k := r][k].id == Some(registrationId);
    assert j.Some? && j.value <= k;
  }

  /** CANCELLED and COMPLETED are final: cancel and complete refuse such a
      registration and leave the table as it was. */
  lemma FinalStatusesStayFinal(rows: seq<Registration>, subjects: seq<Subject>, registrationId: int)
    requires IndexOfRegistration(rows, registrationId).Some?
    requires rows[IndexOfRegistration(rows, registrationId).value].status != Active
    ensures CancelStep(rows, subjects, registrationId) == Step(Failure(RegistrationNotActive), rows)
    ensures CompleteStep(rows, registrationId) == Step(Failure(RegistrationNotActive), rows)
  {
  }

  /** Cancelling or completing the same registration a second time fails
      with "not active" and changes nothing. */
  lemma SecondStatusChangeFails(rows: seq<Registration>, subjects: seq<Subject>, registrationId: int)
    ensures var first := CancelStep(rows, subjects, registrationId);
            first.result.Success? ==>
              CancelStep(first.rows, subjects, registrationId) == Step(Failure(RegistrationNotActive), first.rows)
              && CompleteStep(first.rows, registrationId) == Step(Failure(RegistrationNotActive), first.rows)
    ensures var first := CompleteStep(rows, registrationId);
            first.result.Success? ==>
              CancelStep(first.rows, subjects, registrationId) == Step(Failure(RegistrationNotActive), first.rows)
              && CompleteStep(first.rows, registrationId) == Step(Failure(RegistrationNotActive), first.rows)
  {
    var k := IndexOfRegistration(rows, registrationId);
    if k.Some? {
      IndexOfRegistrationAfterUpdate(rows, registrationId, SetStatus(rows[k.value], Cancelled));
      IndexOfRegistrationAfterUpdate(rows, registrationId, SetStatus(rows[k.value], Completed));
    }
  }

  /** The registration service. The two other services share the student and
      subject tables with it; `LocalDate.now()` is the parameter `today`. */
  class RegistrationService {
    const studentService: StudentServices.StudentService
    const subjectService: SubjectServices.SubjectService
    var registrations: seq<Registration>

    ghost predicate Valid()
      reads this, studentService, subjectService
    {
      studentService.Valid() && subjectService.Valid()
      && IdsArePositions(registrations) && OneActivePerPair(registrations)
    }

    constructor (studentService: StudentServices.StudentService, subjectService: SubjectServices.SubjectService)
      requires studentService.Valid() && subjectService.Valid()
      ensures Valid()
      ensures this.studentService == studentService && this.subjectService == subjectService
      ensures registrations == []
    {
      this.studentService := studentService;
      this.subjectService := subjectService;
      registrations := [];
    }

    /** registerStudent: on success the new registration is ACTIVE, carries
        the next identity value and is the only row added; the subject's
        enrollment count is not changed. */
    method RegisterStudent(studentId: string, subjectId: string, today: Date)
      returns (result: Result<Registration, ServiceError>)
      requires Valid()
      modifies this
      ensures Valid()
      ensures unchanged(studentService, subjectService)
      ensures var e := RegisterRejection(studentService.students, subjectService.subjects, old(registrations),
                                         today, studentId, subjectId);
              if e.Some? then result == Failure(e.value) && registrations == old(registrations)
              else
                result == Success(Registration(Some(|old(registrations)| + 1), studentId, subjectId, Active))
                && registrations == old(registrations) + [result.value]
    {
      var students := studentService.students;
      var subjects := subjectService.subjects;
      if !StudentServices.IsStudentEligible(students, studentId, today) {
        return Failure(StudentNotEligible);
      }
      if !SubjectServices.IsSubjectAvailable(subjects, subjectId) {
        return Failure(SubjectNotAvailable);
      }
      if RegistrationRepository.ExistsByStudentIdAndSubjectIdAndStatus(registrations, studentId, subjectId, Active) {
        return Failure(AlreadyRegistered);
      }
      if SubjectServices.SubjectHasPrerequisite(subjects, subjectId) {
        var prerequisite := SubjectServices.GetPrerequisiteSubjectId(subjects, subjectId);
        var prerequisiteId := prerequisite.value.value;
        if !HasCompletedPrerequisite(registrations, studentId, prerequisiteId) {
          return Failure(PrerequisiteNotCompleted(prerequisiteId));
        }
      }
      var registration := NewRegistration(studentId, subjectId);
      var saved := registration.(id := Some(|registrations| + 1));
      registrations := registrations + [saved];
      var outcome := subjectService.UpdateEnrollmentCount(subjectId);
      assert outcome == Pass;
      result := Success(saved);
    }

    /** cancelRegistration. The enrollment update that follows the status
        change throws when the subject row is gone, and the transaction then
        rolls the status change back. */
    method CancelRegistration(registrationId: int) returns (result: Result<Registration, ServiceError>)
      requires Valid()
      modifies this
      ensures Valid()
      ensures unchanged(studentService, subjectService)
      ensures Step(result, registrations) == CancelStep(old(registrations), subjectService.subjects, registrationId)
    {
      var found := IndexOfRegistration(registrations, registrationId);
      if found.None? {
        return Failure(RegistrationNotFound(registrationId));
      }
      var k := found.value;
      var registration := registrations[k];
      if registration.status != Active {
        return Failure(RegistrationNotActive);
      }
      var updated := SetStatus(registration, Cancelled);
      var outcome := subjectService.UpdateEnrollmentCount(updated.subjectId);
      if outcome.Fail? {
        return Failure(outcome.error);
      }
      registrations := registrations[k := updated];
      result := Success(updated);
    }

    /** completeRegistration. */
    method CompleteRegistration(registrationId: int) returns (result: Result<Registration, ServiceError>)
      requires Valid()
      modifies this
      ensures Valid()
      ensures unchanged(studentService, subjectService)
      ensures Step(result, registrations) == CompleteStep(old(registrations), registrationId)
    {
      var found := IndexOfRegistration(registrations, registrationId);
      if found.None? {
        return Failure(RegistrationNotFound(registrationId));
      }
      var k := found.value;
      var registration := registrations[k];
      if registration.status != Active {
        return Failure(RegistrationNotActive);
      }
      var updated := SetStatus(registration, Completed);
      registrations := registrations[k := updated];
      result := Success(updated);
    }
  }
}
