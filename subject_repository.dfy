/** SubjectRepository: the derived and JPQL queries over the subject table,
    which is the list `rows` in findAll order. */
module SubjectRepository {
  import opened Common
  import opened Model
  import opened Seqs

  /** findByInstructorName. */
  function FindByInstructorName(rows: seq<Subject>, instructorName: string): (r: seq<Subject>)
    ensures forall x :: x in r <==> x in rows && x.instructorName == instructorName
    ensures IsSubsequence(r, rows)
  {
    Filter(rows, (x: Subject) => x.instructorName == instructorName)
  }

  /** findByCredits. */
  function FindByCredits(rows: seq<Subject>, credits: int): (r: seq<Subject>)
    ensures forall x :: x in r <==> x in rows && x.credits == credits
    ensures IsSubsequence(r, rows)
  {
    Filter(rows, (x: Subject) => x.credits == credits)
  }

  /** findAvailableSubjects: the JPQL condition is the entity's isAvailable. */
  function FindAvailableSubjects(rows: seq<Subject>): (r: seq<Subject>)
    ensures forall x :: x in r <==> x in rows && IsAvailable(x)
    ensures IsSubsequence(r, rows)
  {
    Filter(rows, (x: Subject) => x.maxCapacity == -1 || x.currentEnrollment < x.maxCapacity)
  }

  /** findSubjectsWithAvailableCapacity: the same condition with its two
      disjuncts swapped, hence the same list as findAvailableSubjects. */
  function FindSubjectsWithAvailableCapacity(rows: seq<Subject>): (r: seq<Subject>)
    ensures r == FindAvailableSubjects(rows)
  {
    FilterAgrees(rows, (x: Subject) => x.currentEnrollment < x.maxCapacity || x.maxCapacity == -1,
                       (x: Subject) => x.maxCapacity == -1 || x.currentEnrollment < x.maxCapacity);
    Filter(rows, (x: Subject) => x.currentEnrollment < x.maxCapacity || x.maxCapacity == -1)
  }

  /** findSubjectsWithoutPrerequisites: `IS NULL` only. */
  function FindSubjectsWithoutPrerequisites(rows: seq<Subject>): (r: seq<Subject>)
    ensures forall x :: x in r <==> x in rows && x.prerequisiteSubjectId == None
    ensures forall x :: x in r ==> !HasPrerequisite(x)
    ensures IsSubsequence(r, rows)
  {
    Filter(rows, (x: Subject) => x.prerequisiteSubjectId.None?)
  }

  /** A subject whose prerequisite id is the empty string has no
      prerequisite by hasPrerequisite, yet findSubjectsWithoutPrerequisites
      leaves it out. */
  lemma EmptyPrerequisiteNotListedAsWithout(s: Subject)
    requires s.prerequisiteSubjectId == Some("")
    ensures !HasPrerequisite(s)
    ensures s !in FindSubjectsWithoutPrerequisites([s])
  {
  }

  /** findByPrerequisiteSubjectId. */
  function FindByPrerequisiteSubjectId(rows: seq<Subject>, prerequisiteId: string): (r: seq<Subject>)
    ensures forall x :: x in r <==> x in rows && x.prerequisiteSubjectId == Some(prerequisiteId)
    ensures IsSubsequence(r, rows)
  {
    Filter(rows, (x: Subject) => x.prerequisiteSubjectId == Some(prerequisiteId))
  }

  /** `s.subjectId LIKE '0550%'`. */
  predicate IsFacultyRow(x: Subject)
  {
    StartsWith(x.subjectId, "0550")
  }

  /** `s.subjectId LIKE '9069%'`. */
  predicate IsGeneralEducationRow(x: Subject)
  {
    StartsWith(x.subjectId, "9069")
  }

  /** findFacultyCourses. */
  function FindFacultyCourses(rows: seq<Subject>): (r: seq<Subject>)
    ensures forall x :: x in r <==> x in rows && CourseType(x) == FacultyCourse
    ensures IsSubsequence(r, rows)
  {
    Filter(rows, IsFacultyRow)
  }

  /** findGeneralEducationCourses. */
  function FindGeneralEducationCourses(rows: seq<Subject>): (r: seq<Subject>)
    ensures forall x :: x in r <==> x in rows && StartsWith(x.subjectId, "9069")
    ensures IsSubsequence(r, rows)
  {
    Filter(rows, IsGeneralEducationRow)
  }

  /** Over valid subject ids the two course-type queries split the table:
      each subject is in exactly one list, and the lengths add up. */
  lemma CourseTypesPartition(rows: seq<Subject>)
    requires forall i :: 0 <= i < |rows| ==> ValidSubjectId(rows[i].subjectId)
    ensures forall x :: x in rows ==>
              (x in FindFacultyCourses(rows)) != (x in FindGeneralEducationCourses(rows))
    ensures forall x :: x in FindGeneralEducationCourses(rows) ==> CourseType(x) == GeneralEducationCourse
    ensures |FindFacultyCourses(rows)| + |FindGeneralEducationCourses(rows)| == |rows|
  {
    forall i | 0 <= i < |rows|
      ensures IsFacultyRow(rows[i]) != IsGeneralEducationRow(rows[i])
    {
      ValidSubjectIdHasOnePrefix(rows[i].subjectId);
    }
    forall x | x in FindGeneralEducationCourses(rows)
      ensures CourseType(x) == GeneralEducationCourse
    {
      ValidSubjectIdHasOnePrefix(x.subjectId);
    }
    CountPartition(rows, IsFacultyRow, IsGeneralEducationRow);
    CountIsFilterLength(rows, IsFacultyRow);
    CountIsFilterLength(rows, IsGeneralEducationRow);
  }

  /** findBySubjectNameContaining: a substring match on the name. */
  function FindBySubjectNameContaining(rows: seq<Subject>, name: string): (r: seq<Subject>)
    ensures forall x :: x in r <==> x in rows && Contains(x.subjectName, name)
    ensures IsSubsequence(r, rows)
  {
    Filter(rows, (x: Subject) => Contains(x.subjectName, name))
  }

  /** `LIKE '%%'` matches every subject name: an empty fragment returns the
      whole table, and a subject is found by its own name. */
  lemma EmptyFragmentFindsEverySubject(rows: seq<Subject>, x: Subject)
    ensures FindBySubjectNameContaining(rows, "") == rows
    ensures x in rows ==> x in FindBySubjectNameContaining(rows, x.subjectName)
  {
    forall y | y in rows
      ensures Contains(y.subjectName, "")
    {
      ContainsItselfAndEmpty(y.subjectName);
    }
    FilterKeepsAll(rows, (y: Subject) => Contains(y.subjectName, ""));
    ContainsItselfAndEmpty(x.subjectName);
  }
}
