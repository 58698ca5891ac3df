/** SubjectDTO (dto/SubjectDTO.java): the subject as the services hand it to
    their callers, with its own copies of the three helper methods. */
module SubjectDto {
  import opened Common
  import Model

  datatype SubjectDTO = SubjectDTO(
    subjectId: string,
    subjectName: string,
    credits: int,
    instructorName: string,
    prerequisiteSubjectId: Option<string>,
    maxCapacity: int,
    currentEnrollment: int)

  /** The six-argument constructor: the enrollment is set to zero, as is the
      field's default. */
  function NewSubjectDTO(subjectId: string, subjectName: string, credits: int, instructorName: string,
                         prerequisiteSubjectId: Option<string>, maxCapacity: int): (d: SubjectDTO)
    ensures d.currentEnrollment == 0
    ensures d.subjectId == subjectId && d.subjectName == subjectName && d.credits == credits
    ensures d.instructorName == instructorName && d.prerequisiteSubjectId == prerequisiteSubjectId
    ensures d.maxCapacity == maxCapacity
  {
    SubjectDTO(subjectId, subjectName, credits, instructorName, prerequisiteSubjectId, maxCapacity, 0)
  }

  /** isAvailable. */
  predicate IsAvailable(d: SubjectDTO)
  {
    d.maxCapacity == -1 || d.currentEnrollment < d.maxCapacity
  }

  /** hasPrerequisite. */
  predicate HasPrerequisite(d: SubjectDTO)
  {
    d.prerequisiteSubjectId.Some? && !IsBlank(d.prerequisiteSubjectId.value)
  }

  /** getCourseType. */
  function CourseType(d: SubjectDTO): string
  {
    if StartsWith(d.subjectId, "0550") then Model.FacultyCourse else Model.GeneralEducationCourse
  }
}
