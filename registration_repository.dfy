/** RegistrationRepository: the derived and JPQL queries over the
    registration table, which is the list `rows` in findAll order. Every list
    query keeps the table's order. */
module RegistrationRepository {
  import opened Common
  import opened Model
  import opened Seqs

  /** findByStudentId. */
  function FindByStudentId(rows: seq<Registration>, studentId: string): (r: seq<Registration>)
    ensures forall x :: x in r <==> x in rows && x.studentId == studentId
    ensures IsSubsequence(r, rows)
  {
    Filter(rows, (x: Registration) => x.studentId == studentId)
  }

  /** findBySubjectId. */
  function FindBySubjectId(rows: seq<Registration>, subjectId: string): (r: seq<Registration>)
    ensures forall x :: x in r <==> x in rows && x.subjectId == subjectId
    ensures IsSubsequence(r, rows)
  {
    Filter(rows, (x: Registration) => x.subjectId == subjectId)
  }

  /** findByStatus. */
  function FindByStatus(rows: seq<Registration>, status: Status): (r: seq<Registration>)
    ensures forall x :: x in r <==> x in rows && x.status == status
    ensures IsSubsequence(r, rows)
  {
    Filter(rows, (x: Registration) => x.status == status)
  }

  /** The WHERE clause `r.studentId = :studentId AND r.status = 'ACTIVE'`. */
  function ActiveOfStudent(studentId: string): Registration -> bool
  {
    (x: Registration) => x.studentId == studentId && x.status == Active
  }

  /** The WHERE clause `r.subjectId = :subjectId AND r.status = 'ACTIVE'`. */
  function ActiveInSubject(subjectId: string): Registration -> bool
  {
    (x: Registration) => x.subjectId == subjectId && x.status == Active
  }

  /** findActiveRegistrationsByStudentId. */
  function FindActiveRegistrationsByStudentId(rows: seq<Registration>, studentId: string): (r: seq<Registration>)
    ensures forall x :: x in r <==> x in rows && x.studentId == studentId && x.status == Active
    ensures IsSubsequence(r, rows)
  {
    Filter(rows, ActiveOfStudent(studentId))
  }

  /** findActiveRegistrationsBySubjectId. */
  function FindActiveRegistrationsBySubjectId(rows: seq<Registration>, subjectId: string): (r: seq<Registration>)
    ensures forall x :: x in r <==> x in rows && x.subjectId == subjectId && x.status == Active
    ensures IsSubsequence(r, rows)
  {
    Filter(rows, ActiveInSubject(subjectId))
  }

  /** countActiveRegistrationsBySubjectId: the size of the matching list. */
  function CountActiveRegistrationsBySubjectId(rows: seq<Registration>, subjectId: string): (n: nat)
    ensures n == |FindActiveRegistrationsBySubjectId(rows, subjectId)|
  {
    CountIsFilterLength(rows, ActiveInSubject(subjectId));
    Count(rows, ActiveInSubject(subjectId))
  }

  /** countActiveRegistrationsByStudentId: the size of the matching list. */
  function CountActiveRegistrationsByStudentId(rows: seq<Registration>, studentId: string): (n: nat)
    ensures n == |FindActiveRegistrationsByStudentId(rows, studentId)|
  {
    CountIsFilterLength(rows, ActiveOfStudent(studentId));
    Count(rows, ActiveOfStudent(studentId))
  }

  /** The derived condition of the two ...ByStudentIdAndSubjectIdAndStatus queries. */
  function PairWithStatus(studentId: string, subjectId: string, status: Status): Registration -> bool
  {
    (x: Registration) => x.studentId == studentId && x.subjectId == subjectId && x.status == status
  }

  /** existsByStudentIdAndSubjectIdAndStatus. */
  function ExistsByStudentIdAndSubjectIdAndStatus(rows: seq<Registration>, studentId: string,
                                                  subjectId: string, status: Status): (b: bool)
    ensures b <==> exists i :: 0 <= i < |rows|
                     && rows[i].studentId == studentId && rows[i].subjectId == subjectId
                     && rows[i].status == status
  {
    Count(rows, PairWithStatus(studentId, subjectId, status)) > 0
  }

  /** The failure of a single-result query that matches more than one row
      (Spring's IncorrectResultSizeDataAccessException, expected size 1). */
  datatype QueryError = IncorrectResultSize(actualSize: nat)

  /** findByStudentIdAndSubjectIdAndStatus: an Optional single-result query.
      No match is an empty result, one match is that registration, and more
      than one match is a failure. Two CANCELLED (or two COMPLETED) rows of
      one pair arise on the service path by registering again after a cancel. */
  function FindByStudentIdAndSubjectIdAndStatus(rows: seq<Registration>, studentId: string,
                                                subjectId: string, status: Status)
    : (r: Result<Option<Registration>, QueryError>)
    ensures r == Success(None) <==> !ExistsByStudentIdAndSubjectIdAndStatus(rows, studentId, subjectId, status)
    ensures r.Failure? <==> Count(rows, PairWithStatus(studentId, subjectId, status)) > 1
    ensures r.Failure? ==> r.error == IncorrectResultSize(Count(rows, PairWithStatus(studentId, subjectId, status)))
    ensures r.Success? && r.value.Some? ==>
              Count(rows, PairWithStatus(studentId, subjectId, status)) == 1
              && r.value.value in rows && r.value.value.studentId == studentId
              && r.value.value.subjectId == subjectId && r.value.value.status == status
  {
    var matching := Filter(rows, PairWithStatus(studentId, subjectId, status));
    CountIsFilterLength(rows, PairWithStatus(studentId, subjectId, status));
    if |matching| > 1 then Failure(IncorrectResultSize(|matching|))
    else if matching == [] then Success(None)
    else
      assert matching[0] in rows;
      Success(Some(matching[0]))
  }

  /** findByStudentIdAndSubjectId: every registration of the pair, whatever
      its status. */
  function FindByStudentIdAndSubjectId(rows: seq<Registration>, studentId: string, subjectId: string)
    : (r: seq<Registration>)
    ensures forall x :: x in r <==> x in rows && x.studentId == studentId && x.subjectId == subjectId
    ensures IsSubsequence(r, rows)
  {
    Filter(rows, (x: Registration) => x.studentId == studentId && x.subjectId == subjectId)
  }
}
