/** Where the console application and the Spring services, which implement
    the same registration rules, behave differently. */
module Divergences {
  import opened Common
  import opened Model
  import ConsoleApp
  import ServiceErrors
  import StudentServices
  import SubjectServices
  import RegistrationRepository
  import RegistrationServices

  /** The two paths check in a different order. A student old enough on
      both sides, with an ACTIVE registration for the subject, is refused by
      the console as already registered, whatever the subject's prerequisite
      and capacity. The service refuses the same student as soon as the subject
      is unavailable, whatever the registrations. So for an ACTIVE
      registration of a subject that is full (on the console) or has no room
      (on the service), the two report different errors. */
  lemma CheckOrderDiffers(consoleStudents: map<string, Student>, consoleSubjects: map<string, Subject>,
                          consoleRegs: map<int, Registration>,
                          students: seq<Student>, subjects: seq<Subject>, rows: seq<Registration>,
                          today: Date, studentId: string, subjectId: string)
    requires ConsoleApp.StudentAccepted(consoleStudents, today, studentId) && subjectId in consoleSubjects
    requires ConsoleApp.HasActive(consoleRegs, studentId, subjectId)
    requires StudentServices.IsStudentEligible(students, studentId, today)
    requires !SubjectServices.IsSubjectAvailable(subjects, subjectId)
    ensures ConsoleApp.RegisterRejection(consoleStudents, consoleSubjects, consoleRegs, today, studentId, subjectId)
              == Some(ConsoleApp.AlreadyRegistered)
    ensures RegistrationServices.RegisterRejection(students, subjects, rows, today, studentId, subjectId)
              == Some(ServiceErrors.SubjectNotAvailable)
  {
  }

  /** Unlike the console's listing (ConsoleApp.ListedIffAccepted), the
      service's list of subjects for a student keeps a subject that its own
      registerStudent refuses as unavailable. */
  lemma SpringListKeepsRefusedSubjects(students: seq<Student>, subjects: seq<Subject>, rows: seq<Registration>,
                                       today: Date, studentId: string, i: int)
    requires SubjectServices.UniqueSubjectIds(subjects) && 0 <= i < |subjects|
    requires !RegistrationRepository.ExistsByStudentIdAndSubjectIdAndStatus(rows, studentId, subjects[i].subjectId, Active)
    requires !IsAvailable(subjects[i])
    ensures subjects[i].subjectId in RegistrationServices.GetAvailableSubjectsForStudent(subjects, rows, studentId)
    ensures RegistrationServices.RegisterRejection(students, subjects, rows, today, studentId, subjects[i].subjectId).Some?
  {
    SubjectServices.IndexOfSubjectIsTheRow(subjects, i);
  }
}
