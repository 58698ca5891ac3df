/** Values shared by every part of the model: optional values, results of
    operations that can throw, calendar dates and the string predicates the
    source gets from java.lang.String and java.util.regex. */
module Common {

  /** A Java reference that may be null, or an Optional. */
  datatype Option<+T> = None | Some(value: T)

  /** The outcome of an operation that either returns a value or throws. */
  datatype Result<+T, +E> = Success(value: T) | Failure(error: E)

  /** The outcome of an operation that returns nothing or throws. */
  datatype Outcome<+E> = Pass | Fail(error: E)

  /** A java.time.LocalDate, already parsed: year, month and day of month. */
  datatype Date = Date(year: int, month: int, day: int)

  /** LocalDate.isBefore: strictly earlier in (year, month, day) order. */
  predicate IsBefore(a: Date, b: Date)
  {
    a.year < b.year
    || (a.year == b.year && (a.month < b.month || (a.month == b.month && a.day < b.day)))
  }

  /** LocalDate.isAfter. */
  predicate IsAfter(a: Date, b: Date)
  {
    IsBefore(b, a)
  }

  /** The regex class \d, which Java matches against ASCII digits only. */
  predicate IsDigit(c: char)
  {
    '0' <= c <= '9'
  }

  predicate AllDigits(s: string)
  {
    forall i :: 0 <= i < |s| ==> IsDigit(s[i])
  }

  /** String.startsWith, and the JPQL pattern `LIKE 'prefix%'`. */
  predicate StartsWith(s: string, prefix: string)
  {
    |prefix| <= |s| && s[..|prefix|] == prefix
  }

  /** `part` occurs in `s` starting at position i. */
  predicate OccursAt(s: string, part: string, i: nat)
  {
    i + |part| <= |s| && s[i..i + |part|] == part
  }

  /** Substring containment, the JPQL pattern `LIKE %:part%`. */
  predicate Contains(s: string, part: string)
  {
    exists i :: 0 <= i <= |s| - |part| && OccursAt(s, part, i)
  }

  /** `s.trim().isEmpty()`: String.trim removes every character up to and
      including U+0020 from both ends, so the trimmed string is empty exactly
      when every character of `s` is such a character. */
  predicate IsBlank(s: string)
  {
    forall i :: 0 <= i < |s| ==> s[i] <= ' '
  }

  /** Every string contains itself and the empty string. */
  lemma ContainsItselfAndEmpty(s: string)
    ensures Contains(s, s) && Contains(s, "")
  {
    assert OccursAt(s, s, 0);
    assert OccursAt(s, "", 0);
  }
}
