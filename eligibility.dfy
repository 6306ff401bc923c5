/**
  `determineCertificateEligibility`: each participant becomes an output record
  whose status is "Tak" when the duration text mentions a whole number of
  hours of at least one, as the pattern `\b([1-9]\d*) godz` tests, and "Nie"
  otherwise.
 */
module Eligibility {
  import opened Strings
  import opened Records

  const Yes: string := "Tak"
  const No: string := "Nie"
  /** The text that must follow the hour count: one space and the unit. */
  const HourUnit: string := " godz"

  /**
    One output record; its fields are the output columns `Nazwisko`, `Imię`,
    `Status_zaświadczenia` and `Czas_uczestnictwa`.
   */
  datatype Certificate = Certificate(lastName: string, firstName: string, status: string, duration: string)

  /** `\w` without the Unicode flag: ASCII letters, digits and the underscore. */
  predicate IsWordChar(c: char) {
    ('a' <= c <= 'z') || ('A' <= c <= 'Z') || ('0' <= c <= '9') || c == '_'
  }

  /** `\d` without the Unicode flag. */
  predicate IsDigit(c: char) {
    '0' <= c <= '9'
  }

  /** End of the run of digits that starts at `j`. */
  function DigitsEnd(s: string, j: nat): (k: nat)
    requires j <= |s|
    ensures j <= k <= |s|
    ensures forall m :: j <= m < k ==> IsDigit(s[m])
    ensures k < |s| ==> !IsDigit(s[k])
    decreases |s| - j
  {
    if j == |s| || !IsDigit(s[j]) then j else DigitsEnd(s, j + 1)
  }

  /**
    Hand-written matcher for `\b([1-9]\d*) godz` at start position `i`: no
    word character just before, a digit 1-9, the rest of the digit run, then
    " godz".
   */
  predicate MatchesAt(s: string, i: nat) {
    && i < |s|
    && (i == 0 || !IsWordChar(s[i - 1]))
    && '1' <= s[i] <= '9'
    && OccursAt(s, HourUnit, DigitsEnd(s, i + 1))
  }

  /** `test` tries the start positions from `i` on, left to right. */
  predicate MatchFrom(s: string, i: nat)
    decreases |s| - i
  {
    i < |s| && (MatchesAt(s, i) || MatchFrom(s, i + 1))
  }

  /** The regular-expression test on the duration text: a match at some start position. */
  predicate HasHourCount(duration: string) {
    MatchFrom(duration, 0)
  }

  /** Trying the start positions from `i` on succeeds exactly when one of them matches. */
  lemma {:induction false} MatchFromSpec(s: string, i: nat)
    ensures MatchFrom(s, i) <==> exists k :: i <= k < |s| && MatchesAt(s, k)
    decreases |s| - i
  {
    if i < |s| {
      MatchFromSpec(s, i + 1);
      if !MatchesAt(s, i) && exists k :: i <= k < |s| && MatchesAt(s, k) {
        var k :| i <= k < |s| && MatchesAt(s, k);
        assert i + 1 <= k;
      }
    }
  }

  /** `\b` at position `i`: exactly one of the characters around it is a word character. */
  predicate WordBoundary(s: string, i: nat)
    requires i <= |s|
  {
    (i > 0 && IsWordChar(s[i - 1])) != (i < |s| && IsWordChar(s[i]))
  }

  /**
    Reference semantics of the pattern, read off the regular expression: a
    boundary at `i`, a digit 1-9 at `i`, any (backtracking) number of digits up
    to `j`, then " godz" at `j`.
   */
  predicate PatternAt(s: string, i: nat, j: nat) {
    && i < j <= |s|
    && WordBoundary(s, i)
    && '1' <= s[i] <= '9'
    && (forall m :: i < m < j ==> IsDigit(s[m]))
    && OccursAt(s, HourUnit, j)
  }

  /** The hand-written matcher agrees with the pattern: both directions. */
  lemma MatchesAtIsPattern(s: string, i: nat)
    ensures MatchesAt(s, i) ==> PatternAt(s, i, DigitsEnd(s, i + 1))
    ensures forall j: nat :: PatternAt(s, i, j) ==> MatchesAt(s, i)
  {
    forall j: nat | PatternAt(s, i, j)
      ensures MatchesAt(s, i)
    {
      assert s[j] == HourUnit[0];
    }
  }

  /** The status string of one duration. */
  function Status(duration: string): (status: string)
    ensures status == Yes || status == No
  {
    if HasHourCount(duration) then Yes else No
  }

  /** "Tak" exactly when the pattern occurs somewhere in the duration. */
  lemma StatusIsPattern(duration: string)
    ensures Status(duration) == Yes <==> exists i, j :: PatternAt(duration, i, j)
  {
    MatchFromSpec(duration, 0);
    if Status(duration) == Yes {
      var i :| 0 <= i < |duration| && MatchesAt(duration, i);
      MatchesAtIsPattern(duration, i);
      assert PatternAt(duration, i, DigitsEnd(duration, i + 1));
    } else {
      forall i, j | PatternAt(duration, i, j)
        ensures false
      {
        MatchesAtIsPattern(duration, i);
      }
    }
  }

  /** The `map` callback: the surname, given name and duration are copied, the status is derived. */
  function Classify(p: Participant): (c: Certificate)
    ensures c.lastName == p.lastName && c.firstName == p.firstName && c.duration == p.duration
    ensures c.status == Yes <==> exists i, j :: PatternAt(p.duration, i, j)
    ensures c.status == No <==> !exists i, j :: PatternAt(p.duration, i, j)
  {
    StatusIsPattern(p.duration);
    Certificate(p.lastName, p.firstName, Status(p.duration), p.duration)
  }

  /**
    `determineCertificateEligibility`: one output record per participant, in
    the same order, carrying the participant's names and duration unchanged.
   */
  function DetermineCertificateEligibility(participants: seq<Participant>): (certificates: seq<Certificate>)
    ensures |certificates| == |participants|
    ensures forall k :: 0 <= k < |participants| ==>
      && certificates[k].lastName == participants[k].lastName
      && certificates[k].firstName == participants[k].firstName
      && certificates[k].duration == participants[k].duration
      && (certificates[k].status == Yes <==> exists i, j :: PatternAt(participants[k].duration, i, j))
      && (certificates[k].status == No <==> !exists i, j :: PatternAt(participants[k].duration, i, j))
  {
    seq(|participants|, k requires 0 <= k < |participants| => Classify(participants[k]))
  }

  /** Durations with a whole hour count of at least one give "Tak". */
  lemma StatusTakExamples()
    ensures Status("1 godz. 5 min.") == Yes
    ensures Status("12 godz") == Yes
  {
    assert DigitsEnd("1 godz. 5 min.", 1) == 1;
    assert "1 godz. 5 min."[1..6] == HourUnit;
    assert MatchesAt("1 godz. 5 min.", 0);
    assert DigitsEnd("12 godz", 1) == 2;
    assert "12 godz"[2..7] == HourUnit;
    assert MatchesAt("12 godz", 0);
  }

  /** Minutes only give "Nie". */
  lemma StatusMinutesOnly()
    ensures Status("45 min.") == No
  {
    var s := "45 min.";
    assert DigitsEnd(s, 1) == 2;
    assert s[3] != HourUnit[1];
    assert !MatchesAt(s, 0);
  }

  /** A zero hour count does not qualify, and neither does a later minute count. */
  lemma StatusZeroHours()
    ensures Status("0 godz. 50 min.") == No
  {
    var s := "0 godz. 50 min.";
    assert DigitsEnd(s, 9) == 10;
    assert s[11] != HourUnit[1];
    assert !MatchFrom(s, 9);
    assert !MatchesAt(s, 8);
    assert !MatchFrom(s, 8);
  }

  /** A leading zero or a letter glued before the digit leaves no word boundary before a digit 1-9. */
  lemma StatusNoBoundary()
    ensures Status("01 godz") == No
    ensures Status("x1 godz") == No
  {
  }
}
