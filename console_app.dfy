/** The stand-alone console application (SimpleCourseRegistrationApp.java):
    three in-memory maps and a registration-id counter, and the operations
    that decide and record registrations. The menu, the prompts, the parsing
    of typed input and the printing are not part of the model; each
    operation takes its already-parsed inputs, and `LocalDate.now()` is the
    parameter `today`. */
module ConsoleApp {
  import opened Common
  import opened Model

  /** The reasons the console prints a ❌ message and returns. */
  datatype ConsoleError =
    | StudentNotFound
    | StudentTooYoung
    | SubjectNotFound
    | AlreadyRegistered
    | PrerequisiteNotCompleted
    | SubjectFull
    | InvalidStudentId
    | StudentIdExists
    | DateOfBirthInFuture
    | InvalidSubjectId
    | SubjectIdExists
    | CreditsNotPositive
    | PrerequisiteNotFound
    | InvalidCapacity
    | RegistrationNotFound
    | RegistrationNotActive

  // ---------------------------------------------------------------------
  // Specification functions over the three maps
  // ---------------------------------------------------------------------

  /** The student holds an ACTIVE registration for the subject. */
  predicate HasActive(regs: map<int, Registration>, studentId: string, subjectId: string)
  {
    exists r :: r in regs.Values && r.studentId == studentId && r.subjectId == subjectId && r.status == Active
  }

  /** The student holds a COMPLETED registration for the subject. */
  predicate HasCompleted(regs: map<int, Registration>, studentId: string, subjectId: string)
  {
    exists r :: r in regs.Values && r.studentId == studentId && r.subjectId == subjectId && r.status == Completed
  }

  /** The keys of the ACTIVE registrations for a subject. */
  ghost function ActiveKeys(regs: map<int, Registration>, subjectId: string): set<int>
  {
    set k | k in regs && regs[k].subjectId == subjectId && regs[k].status == Active
  }

  /** The number of ACTIVE registrations for a subject. */
  ghost function ActiveCount(regs: map<int, Registration>, subjectId: string): nat
  {
    |ActiveKeys(regs, subjectId)|
  }

  /** The student checks of registerStudent pass: stored, and old enough. */
  predicate StudentAccepted(students: map<string, Student>, today: Date, studentId: string)
  {
    studentId in students && Age(students[studentId], today) >= MinimumAge
  }

  /** What registerStudent prints and returns on, in the order it checks:
      an unknown student, one under the minimum age, an unknown subject, an
      ACTIVE registration of the pair, an uncompleted prerequisite, a full
      subject. None when the registration goes ahead. */
  function RegisterRejection(students: map<string, Student>, subjects: map<string, Subject>,
                             regs: map<int, Registration>, today: Date,
                             studentId: string, subjectId: string): (e: Option<ConsoleError>)
    ensures e.None? <==>
              studentId in students && Age(students[studentId], today) >= MinimumAge
              && subjectId in subjects && !HasActive(regs, studentId, subjectId)
              && PrerequisiteMet(subjects[subjectId], regs, studentId)
              && IsAvailable(subjects[subjectId])
    ensures studentId !in students ==> e == Some(StudentNotFound)
    ensures studentId in students && Age(students[studentId], today) < MinimumAge ==> e == Some(StudentTooYoung)
    ensures StudentAccepted(students, today, studentId) && subjectId !in subjects ==> e == Some(SubjectNotFound)
    ensures (StudentAccepted(students, today, studentId) && subjectId in subjects
             && HasActive(regs, studentId, subjectId)) ==> e == Some(AlreadyRegistered)
    ensures (StudentAccepted(students, today, studentId) && subjectId in subjects
             && !HasActive(regs, studentId, subjectId)
             && !PrerequisiteMet(subjects[subjectId], regs, studentId)) ==> e == Some(PrerequisiteNotCompleted)
    ensures (StudentAccepted(students, today, studentId) && subjectId in subjects
             && !HasActive(regs, studentId, subjectId) && PrerequisiteMet(subjects[subjectId], regs, studentId)
             && !IsAvailable(subjects[subjectId])) ==> e == Some(SubjectFull)
  {
    if studentId !in students then Some(StudentNotFound)
    else if Age(students[studentId], today) < MinimumAge then Some(StudentTooYoung)
    else if subjectId !in subjects then Some(SubjectNotFound)
    else if HasActive(regs, studentId, subjectId) then Some(AlreadyRegistered)
    else if !PrerequisiteMet(subjects[subjectId], regs, studentId) then Some(PrerequisiteNotCompleted)
    else if !IsAvailable(subjects[subjectId]) then Some(SubjectFull)
    else None
  }

  /** No prerequisite, or the student has COMPLETED it. */
  predicate PrerequisiteMet(s: Subject, regs: map<int, Registration>, studentId: string)
  {
    HasPrerequisite(s) ==> HasCompleted(regs, studentId, s.prerequisiteSubjectId.value)
  }

  /** The subject ids displayAvailableSubjects lists for a student: no ACTIVE
      registration of the student for it, available, and its prerequisite
      (if any) completed. */
  ghost function ListedSubjects(subjects: map<string, Subject>, regs: map<int, Registration>,
                                studentId: string): set<string>
  {
    set k | k in subjects && Listed(subjects[k], regs, studentId) :: subjects[k].subjectId
  }

  predicate Listed(s: Subject, regs: map<int, Registration>, studentId: string)
  {
    !HasActive(regs, studentId, s.subjectId) && IsAvailable(s) && PrerequisiteMet(s, regs, studentId)
  }

  /** The console's state invariant:
      - the counter is positive and every key is below it and is the id of
        its registration;
      - every registration names a stored student and a stored subject, and
        none is COMPLETED (no operation writes that status);
      - students and subjects are stored under their own ids;
      - a subject's enrollment is the number of its ACTIVE registrations;
      - a capacity is -1 or positive, and a limited one is never exceeded. */
  ghost predicate ConsistentStore(students: map<string, Student>, subjects: map<string, Subject>,
                                  regs: map<int, Registration>, counter: int)
  {
    counter >= 1
    && (forall k :: k in regs ==> 1 <= k < counter && regs[k].id == Some(k))
    && (forall k :: k in regs ==> regs[k].studentId in students && regs[k].subjectId in subjects)
    && (forall r :: r in regs.Values ==> r.status != Completed)
    && (forall id :: id in students ==> students[id].studentId == id)
    && (forall id :: id in subjects ==> subjects[id].subjectId == id)
    && (forall id :: id in subjects ==> subjects[id].currentEnrollment == ActiveCount(regs, id))
    && (forall id :: id in subjects ==> subjects[id].maxCapacity == -1 || subjects[id].maxCapacity > 0)
    && (forall id :: id in subjects ==>
          subjects[id].maxCapacity == -1 || subjects[id].currentEnrollment <= subjects[id].maxCapacity)
  }

  // ---------------------------------------------------------------------
  // Properties of the console's rules
  // ---------------------------------------------------------------------

  /** In a consistent store every enrollment is non-negative and within a
      limited capacity. */
  lemma EnrollmentWithinBounds(students: map<string, Student>, subjects: map<string, Subject>,
                               regs: map<int, Registration>, counter: int, subjectId: string)
    requires ConsistentStore(students, subjects, regs, counter) && subjectId in subjects
    ensures 0 <= subjects[subjectId].currentEnrollment
    ensures subjects[subjectId].maxCapacity != -1 ==>
              subjects[subjectId].currentEnrollment <= subjects[subjectId].maxCapacity
  {
  }

  /** Nothing the console stores is COMPLETED, so a subject with a
      prerequisite can never be registered for. */
  lemma PrerequisiteNeverMet(students: map<string, Student>, subjects: map<string, Subject>,
                             regs: map<int, Registration>, counter: int, today: Date,
                             studentId: string, subjectId: string)
    requires ConsistentStore(students, subjects, regs, counter)
    requires subjectId in subjects && HasPrerequisite(subjects[subjectId])
    ensures RegisterRejection(students, subjects, regs, today, studentId, subjectId).Some?
    ensures subjectId !in ListedSubjects(subjects, regs, studentId)
  {
    assert !HasCompleted(regs, studentId, subjects[subjectId].prerequisiteSubjectId.value);
    forall k | k in subjects && subjects[k].subjectId == subjectId
      ensures !Listed(subjects[k], regs, studentId)
    {
      assert k == subjectId;
    }
  }

  /** displayAvailableSubjects does not check the age: a stored student under
      the minimum age is listed every subject that passes the subject checks,
      and registerStudent refuses each of them as too young. */
  lemma ListingIgnoresAge(students: map<string, Student>, subjects: map<string, Subject>,
                          regs: map<int, Registration>, counter: int, today: Date,
                          studentId: string, subjectId: string)
    requires ConsistentStore(students, subjects, regs, counter)
    requires studentId in students && Age(students[studentId], today) < MinimumAge
    requires subjectId in subjects && Listed(subjects[subjectId], regs, studentId)
    ensures subjectId in ListedSubjects(subjects, regs, studentId)
    ensures RegisterRejection(students, subjects, regs, today, studentId, subjectId) == Some(StudentTooYoung)
  {
    assert subjects[subjectId].subjectId == subjectId;
  }

  /** For a stored student old enough to register, a subject is listed as
      available exactly when registerStudent would accept it: the listing
      and the registration guards agree. */
  lemma ListedIffAccepted(students: map<string, Student>, subjects: map<string, Subject>,
                          regs: map<int, Registration>, counter: int, today: Date,
                          studentId: string, subjectId: string)
    requires ConsistentStore(students, subjects, regs, counter)
    requires studentId in students && Age(students[studentId], today) >= MinimumAge
    ensures subjectId in ListedSubjects(subjects, regs, studentId) <==>
              RegisterRejection(students, subjects, regs, today, studentId, subjectId).None?
  {
    if subjectId in ListedSubjects(subjects, regs, studentId) {
      var k :| k in subjects && Listed(subjects[k], regs, studentId) && subjects[k].subjectId == subjectId;
      assert k == subjectId;
    }
    if RegisterRejection(students, subjects, regs, today, studentId, subjectId).None? {
      assert subjects[subjectId].subjectId == subjectId;
    }
  }

  /** Adding a registration under a fresh key adds that key to the ACTIVE
      keys of its subject, and only there. */
  lemma {:induction false} ActiveKeysAfterAdd(regs: map<int, Registration>, c: int, r: Registration, subjectId: string)
    requires c !in regs && r.status == Active
    ensures ActiveKeys(regs[c := r], subjectId)
            == if r.subjectId == subjectId then ActiveKeys(regs, subjectId) + {c} else ActiveKeys(regs, subjectId)
    ensures ActiveCount(regs[c := r], subjectId)
            == if r.subjectId == subjectId then ActiveCount(regs, subjectId) + 1 else ActiveCount(regs, subjectId)
  {
    var after := ActiveKeys(regs[c := r], subjectId);
    var before := ActiveKeys(regs, subjectId);
    if r.subjectId == subjectId {
      assert after == before + {c};
      assert c !in before;
    } else {
      assert after == before;
    }
  }

  /** Cancelling an ACTIVE registration removes its key from the ACTIVE keys
      of its subject, and from nowhere else. */
  lemma {:induction false} ActiveKeysAfterCancel(regs: map<int, Registration>, k: int, subjectId: string)
    requires k in regs && regs[k].status == Active
    ensures ActiveCount(regs[k := regs[k].(status := Cancelled)], subjectId)
            == if regs[k].subjectId == subjectId then ActiveCount(regs, subjectId) - 1 else ActiveCount(regs, subjectId)
  {
    var after := ActiveKeys(regs[k := regs[k].(status := Cancelled)], subjectId);
    var before := ActiveKeys(regs, subjectId);
    if regs[k].subjectId == subjectId {
      assert after == before - {k};
      assert k in before;
    } else {
      assert after == before;
    }
  }

  /** A new subject has no registrations yet. */
  lemma {:induction false} NoActiveKeysForNewSubject(subjects: map<string, Subject>, regs: map<int, Registration>,
                                                      subjectId: string)
    requires forall k :: k in regs ==> regs[k].subjectId in subjects
    requires subjectId !in subjects
    ensures ActiveCount(regs, subjectId) == 0
  {
    forall k | k in regs
      ensures k !in ActiveKeys(regs, subjectId)
    {
      assert regs[k].subjectId in subjects;
    }
    assert ActiveKeys(regs, subjectId) == {};
  }

  /** The console application's state. */
  class CourseRegistrationApp {
    var students: map<string, Student>
    var subjects: map<string, Subject>
    var registrations: map<int, Registration>
    var registrationIdCounter: int

    ghost predicate Valid()
      reads this
    {
      ConsistentStore(students, subjects, registrations, registrationIdCounter)
    }

    /** Empty maps and the counter at 1. */
    constructor ()
      ensures Valid()
      ensures students == map[] && subjects == map[] && registrations == map[]
      ensures registrationIdCounter == 1
    {
      students := map[];
      subjects := map[];
      registrations := map[];
      registrationIdCounter := 1;
    }

    /** The duplicate check of registerStudent: a loop over the
        registrations that stops at the first ACTIVE one of the pair. */
    method HasActiveRegistration(studentId: string, subjectId: string) returns (found: bool)
      ensures found == HasActive(registrations, studentId, subjectId)
    {
      var remaining := registrations.Values;
      while remaining != {}
        invariant remaining <= registrations.Values
        invariant forall r :: r in registrations.Values && r !in remaining ==>
                    !(r.studentId == studentId && r.subjectId == subjectId && r.status == Active)
        decreases |remaining|
      {
        var reg :| reg in remaining;
        if reg.studentId == studentId && reg.subjectId == subjectId && reg.status == Active {
          return true;
        }
        remaining := remaining - {reg};
      }
      return false;
    }

    /** The prerequisite check of registerStudent and of
        displayAvailableSubjects: a loop over the registrations that stops
        at the first COMPLETED one of the student for the prerequisite. */
    method CompletedPrerequisite(studentId: string, prerequisiteId: string) returns (completed: bool)
      ensures completed == HasCompleted(registrations, studentId, prerequisiteId)
    {
      completed := false;
      var remaining := registrations.Values;
      while remaining != {}
        invariant remaining <= registrations.Values
        invariant !completed
        invariant forall r :: r in registrations.Values && r !in remaining ==>
                    !(r.studentId == studentId && r.subjectId == prerequisiteId && r.status == Completed)
        decreases |remaining|
      {
        var reg :| reg in remaining;
        if reg.studentId == studentId && reg.subjectId == prerequisiteId && reg.status == Completed {
          completed := true;
          break;
        }
        remaining := remaining - {reg};
      }
    }

    /** The filter of displayAvailableSubjects: None for an unknown student,
        otherwise the ids of the subjects it lists. */
    method AvailableSubjects(studentId: string) returns (listed: Option<set<string>>)
      ensures listed.None? <==> studentId !in students
      ensures listed.Some? ==> listed.value == ListedSubjects(subjects, registrations, studentId)
    {
      if studentId !in students {
        return None;
      }
      // The subject ids of the student's ACTIVE registrations.
      var registeredSubjects: set<string> := {};
      var remaining := registrations.Values;
      while remaining != {}
        invariant remaining <= registrations.Values
        invariant forall id :: id in registeredSubjects <==>
                    exists r :: r in registrations.Values && r !in remaining && r.studentId == studentId
                                && r.subjectId == id && r.status == Active
        decreases |remaining|
      {
        var reg :| reg in remaining;
        if reg.studentId == studentId && reg.status == Active {
          registeredSubjects := registeredSubjects + {reg.subjectId};
        }
        remaining := remaining - {reg};
      }
      assert forall id :: id in registeredSubjects <==> HasActive(registrations, studentId, id);

      var result: set<string> := {};
      var toVisit := subjects.Keys;
      while toVisit != {}
        invariant toVisit <= subjects.Keys
        invariant forall id :: id in result <==>
                    exists k :: k in subjects && k !in toVisit && Listed(subjects[k], registrations, studentId)
                                && subjects[k].subjectId == id
        decreases |toVisit|
      {
        var k :| k in toVisit;
        var subject := subjects[k];
        if subject.subjectId !in registeredSubjects && IsAvailable(subject) {
          var canRegister := true;
          if HasPrerequisite(subject) {
            canRegister := CompletedPrerequisite(studentId, subject.prerequisiteSubjectId.value);
          }
          if canRegister {
            result := result + {subject.subjectId};
          }
        }
        toVisit := toVisit - {k};
      }
      return Some(result);
    }

    /** registerStudent. A rejected attempt changes nothing. An accepted one
        stores one ACTIVE registration under the counter's value, which is
        larger than every id already used, advances the counter and raises
        the subject's enrollment by one. */
    method RegisterStudent(studentId: string, subjectId: string, today: Date)
      returns (result: Result<int, ConsoleError>)
      requires Valid()
      modifies this
      ensures Valid()
      ensures var e := RegisterRejection(old(students), old(subjects), old(registrations), today, studentId, subjectId);
              if e.Some? then
                result == Failure(e.value)
                && students == old(students) && subjects == old(subjects)
                && registrations == old(registrations) && registrationIdCounter == old(registrationIdCounter)
              else
                var id := old(registrationIdCounter);
                result == Success(id)
                && registrations == old(registrations)[id := Registration(Some(id), studentId, subjectId, Active)]
                && registrationIdCounter == id + 1
                && subjects == old(subjects)[subjectId := old(subjects)[subjectId].(
                                currentEnrollment := old(subjects)[subjectId].currentEnrollment + 1)]
                && students == old(students)
      ensures result.Success? ==> forall k :: k in old(registrations) ==> k < result.value
    {
      if studentId !in students {
        return Failure(StudentNotFound);
      }
      var student := students[studentId];
      if Age(student, today) < MinimumAge {
        return Failure(StudentTooYoung);
      }
      if subjectId !in subjects {
        return Failure(SubjectNotFound);
      }
      var subject := subjects[subjectId];
      var registered := HasActiveRegistration(studentId, subjectId);
      if registered {
        return Failure(AlreadyRegistered);
      }
      if HasPrerequisite(subject) {
        var hasPrerequisite := CompletedPrerequisite(studentId, subject.prerequisiteSubjectId.value);
        if !hasPrerequisite {
          return Failure(PrerequisiteNotCompleted);
        }
      }
      if !IsAvailable(subject) {
        return Failure(SubjectFull);
      }
      // new Registration(...) takes the counter's value and post-increments it.
      var id := registrationIdCounter;
      registrationIdCounter := registrationIdCounter + 1;
      var registration := NewRegistration(studentId, subjectId).(id := Some(id));
      ghost var before := registrations;
      registrations := registrations[id := registration];
      subjects := subjects[subjectId := subject.(currentEnrollment := subject.currentEnrollment + 1)];
      forall sid | sid in subjects
        ensures subjects[sid].currentEnrollment == ActiveCount(registrations, sid)
      {
        ActiveKeysAfterAdd(before, id, registration, sid);
      }
      result := Success(id);
    }

    /** cancelRegistration. An unknown id or a registration that is not
        ACTIVE changes nothing; otherwise the registration becomes CANCELLED
        and its subject's enrollment drops by one. */
    method CancelRegistration(registrationId: int) returns (outcome: Outcome<ConsoleError>)
      requires Valid()
      modifies this
      ensures Valid()
      ensures registrationId !in old(registrations) ==>
                outcome == Fail(RegistrationNotFound) && registrations == old(registrations) && subjects == old(subjects)
      ensures registrationId in old(registrations) && old(registrations)[registrationId].status != Active ==>
                outcome == Fail(RegistrationNotActive) && registrations == old(registrations) && subjects == old(subjects)
      ensures registrationId in old(registrations) && old(registrations)[registrationId].status == Active ==>
                var reg := old(registrations)[registrationId];
                outcome == Pass
                && registrations == old(registrations)[registrationId := SetStatus(reg, Cancelled)]
                && subjects == old(subjects)[reg.subjectId := old(subjects)[reg.subjectId].(
                                currentEnrollment := old(subjects)[reg.subjectId].currentEnrollment - 1)]
      ensures students == old(students) && registrationIdCounter == old(registrationIdCounter)
    {
      if registrationId !in registrations {
        return Fail(RegistrationNotFound);
      }
      var reg := registrations[registrationId];
      if reg.status != Active {
        return Fail(RegistrationNotActive);
      }
      var subject := subjects[reg.subjectId];
      ghost var before := registrations;
      registrations := registrations[registrationId := SetStatus(reg, Cancelled)];
      subjects := subjects[reg.subjectId := subject.(currentEnrollment := subject.currentEnrollment - 1)];
      forall sid | sid in subjects
        ensures subjects[sid].currentEnrollment == ActiveCount(registrations, sid)
      {
        ActiveKeysAfterCancel(before, registrationId, sid);
      }
      outcome := Pass;
    }

    /** addNewStudent: the id must match `^69\d{6}$` and be new, and the date
        of birth must not lie after today. No age and no email check. */
    method AddNewStudent(studentId: string, title: string, firstName: string, lastName: string,
                         dateOfBirth: Date, currentSchool: string, email: string, today: Date)
      returns (outcome: Outcome<ConsoleError>)
      requires Valid()
      modifies this
      ensures Valid()
      ensures !ValidStudentId(studentId) ==> outcome == Fail(InvalidStudentId)
      ensures ValidStudentId(studentId) && studentId in old(students) ==> outcome == Fail(StudentIdExists)
      ensures ValidStudentId(studentId) && studentId !in old(students) && IsAfter(dateOfBirth, today) ==>
                outcome == Fail(DateOfBirthInFuture)
      ensures outcome.Fail? ==> students == old(students)
      ensures outcome == Pass <==> ValidStudentId(studentId) && studentId !in old(students) && !IsAfter(dateOfBirth, today)
      ensures outcome == Pass ==>
                students == old(students)[studentId := Student(studentId, title, firstName, lastName,
                                                               dateOfBirth, currentSchool, email)]
      ensures subjects == old(subjects) && registrations == old(registrations)
      ensures registrationIdCounter == old(registrationIdCounter)
    {
      if !ValidStudentId(studentId) {
        return Fail(InvalidStudentId);
      }
      if studentId in students {
        return Fail(StudentIdExists);
      }
      if IsAfter(dateOfBirth, today) {
        return Fail(DateOfBirthInFuture);
      }
      students := students[studentId := Student(studentId, title, firstName, lastName, dateOfBirth, currentSchool, email)];
      outcome := Pass;
    }

    /** addNewSubject: the id must match `^(0550|9069)\d{4}$` and be new, the
        credits positive, a non-empty prerequisite id a stored subject, and
        the capacity -1 or positive. An empty prerequisite is stored as null. */
    method AddNewSubject(subjectId: string, subjectName: string, credits: int, instructorName: string,
                         prerequisiteId: string, maxCapacity: int)
      returns (outcome: Outcome<ConsoleError>)
      requires Valid()
      modifies this
      ensures Valid()
      ensures !ValidSubjectId(subjectId) ==> outcome == Fail(InvalidSubjectId)
      ensures ValidSubjectId(subjectId) && subjectId in old(subjects) ==> outcome == Fail(SubjectIdExists)
      ensures ValidSubjectId(subjectId) && subjectId !in old(subjects) && credits <= 0 ==>
                outcome == Fail(CreditsNotPositive)
      ensures ValidSubjectId(subjectId) && subjectId !in old(subjects) && credits > 0
              && prerequisiteId != "" && prerequisiteId !in old(subjects) ==>
                outcome == Fail(PrerequisiteNotFound)
      ensures (ValidSubjectId(subjectId) && subjectId !in old(subjects) && credits > 0
               && (prerequisiteId == "" || prerequisiteId in old(subjects))
               && maxCapacity != -1 && maxCapacity <= 0) ==>
                outcome == Fail(InvalidCapacity)
      ensures outcome == Pass <==>
                ValidSubjectId(subjectId) && subjectId !in old(subjects) && credits > 0
                && (prerequisiteId == "" || prerequisiteId in old(subjects))
                && (maxCapacity == -1 || maxCapacity > 0)
      ensures outcome.Fail? ==> subjects == old(subjects)
      ensures outcome == Pass ==>
                subjects == old(subjects)[subjectId := NewSubject(subjectId, subjectName, credits, instructorName,
                                                   if prerequisiteId == "" then None else Some(prerequisiteId),
                                                   maxCapacity)]
      ensures students == old(students) && registrations == old(registrations)
      ensures registrationIdCounter == old(registrationIdCounter)
    {
      if !ValidSubjectId(subjectId) {
        return Fail(InvalidSubjectId);
      }
      if subjectId in subjects {
        return Fail(SubjectIdExists);
      }
      if credits <= 0 {
        return Fail(CreditsNotPositive);
      }
      if prerequisiteId != "" && prerequisiteId !in subjects {
        return Fail(PrerequisiteNotFound);
      }
      if maxCapacity < -1 || maxCapacity == 0 {
        return Fail(InvalidCapacity);
      }
      var prerequisite := if prerequisiteId == "" then None else Some(prerequisiteId);
      NoActiveKeysForNewSubject(subjects, registrations, subjectId);
      subjects := subjects[subjectId := NewSubject(subjectId, subjectName, credits, instructorName, prerequisite, maxCapacity)];
      outcome := Pass;
    }
  }
}
