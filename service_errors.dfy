/** The IllegalArgumentExceptions the Spring services throw, one constructor
    per throw site (the exception messages are not modelled). */
module ServiceErrors {

  datatype ServiceError =
    | StudentNotFound(studentId: string)
    | StudentAlreadyExists(studentId: string)
    | EmailAlreadyExists(email: string)
    | StudentTooYoung
    | SubjectNotFound(subjectId: string)
    | SubjectAlreadyExists(subjectId: string)
    | PrerequisiteNotFound(prerequisiteId: string)
    | StudentNotEligible
    | SubjectNotAvailable
    | AlreadyRegistered
    | PrerequisiteNotCompleted(prerequisiteId: string)
    | RegistrationNotFound(registrationId: int)
    | RegistrationNotActive
}
