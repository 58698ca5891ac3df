/** StudentRepository: the derived and JPQL queries over the student table,
    which is the list `rows` in findAll order. */
module StudentRepository {
  import opened Common
  import opened Model
  import opened Seqs

  predicate HasEmail(email: string, x: Student)
  {
    x.email == email
  }

  /** existsByEmail. */
  function ExistsByEmail(rows: seq<Student>, email: string): (b: bool)
    ensures b <==> exists i :: 0 <= i < |rows| && rows[i].email == email
  {
    Count(rows, x => HasEmail(email, x)) > 0
  }

  /** findByEmail: a student with that email, if there is one (the first in
      table order). */
  function FindByEmail(rows: seq<Student>, email: string): (r: Option<Student>)
    ensures r.Some? <==> ExistsByEmail(rows, email)
    ensures r.Some? ==> r.value in rows && r.value.email == email
  {
    var matching := Filter(rows, x => HasEmail(email, x));
    if matching == [] then None
    else
      assert matching[0] in rows;
      Some(matching[0])
  }

  /** findByCurrentSchool. */
  function FindByCurrentSchool(rows: seq<Student>, currentSchool: string): (r: seq<Student>)
    ensures forall x :: x in r <==> x in rows && x.currentSchool == currentSchool
    ensures IsSubsequence(r, rows)
  {
    Filter(rows, (x: Student) => x.currentSchool == currentSchool)
  }

  /** findByNameContaining: the first or the last name contains `name`. */
  function FindByNameContaining(rows: seq<Student>, name: string): (r: seq<Student>)
    ensures forall x :: x in r <==> x in rows && (Contains(x.firstName, name) || Contains(x.lastName, name))
    ensures IsSubsequence(r, rows)
  {
    Filter(rows, (x: Student) => Contains(x.firstName, name) || Contains(x.lastName, name))
  }

  /** `LIKE '%%'` matches every name: an empty fragment returns the whole
      table, and a student is found by their own first or last name. */
  lemma EmptyFragmentFindsEveryStudent(rows: seq<Student>, x: Student)
    ensures FindByNameContaining(rows, "") == rows
    ensures x in rows ==> x in FindByNameContaining(rows, x.firstName) && x in FindByNameContaining(rows, x.lastName)
  {
    forall y | y in rows
      ensures Contains(y.firstName, "") || Contains(y.lastName, "")
    {
      ContainsItselfAndEmpty(y.firstName);
    }
    FilterKeepsAll(rows, (y: Student) => Contains(y.firstName, "") || Contains(y.lastName, ""));
    ContainsItselfAndEmpty(x.firstName);
    ContainsItselfAndEmpty(x.lastName);
  }

  /** findByAgeGreaterThan: despite its name, the students born on or after
      `minDate`, who are at most as old as someone born on `minDate`. */
  function FindByAgeGreaterThan(rows: seq<Student>, minDate: Date): (r: seq<Student>)
    ensures forall x :: x in r <==> x in rows && !IsBefore(x.dateOfBirth, minDate)
    ensures forall x, today :: x in r ==> Age(x, today) <= today.year - minDate.year
    ensures IsSubsequence(r, rows)
  {
    Filter(rows, (x: Student) => !IsBefore(x.dateOfBirth, minDate))
  }
}
