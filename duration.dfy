/** `duration_to_abc_length`: a duration in quarter-note beats becomes an ABC
    length token. Seven durations are matched exactly, durations of four
    beats or more become a decimal count of whole notes, everything else the
    empty token. Durations are exact reals here. */
module Duration {
  import opened Text

  function DigitChar(d: nat): char
    requires d < 10
  {
    ('0' as int + d) as char
  }

  predicate IsDigit(c: char)
  {
    '0' <= c <= '9'
  }

  /** Python's `str(n)` for a natural number. */
  function NatToString(n: nat): (s: string)
    ensures s != []
    ensures forall i :: 0 <= i < |s| ==> IsDigit(s[i])
    ensures |s| > 1 ==> s[0] != '0'
  {
    if n < 10 then [DigitChar(n)] else NatToString(n / 10) + [DigitChar(n % 10)]
  }

  /** Reads a string of decimal digits back as a number. */
  function DigitsValue(s: string): int
    requires forall i :: 0 <= i < |s| ==> IsDigit(s[i])
  {
    if s == [] then 0
    else 10 * DigitsValue(s[..|s| - 1]) + (s[|s| - 1] as int - '0' as int)
  }

  /** The decimal text of a number reads back as that number. */
  lemma {:induction false} NatToStringValue(n: nat)
    ensures DigitsValue(NatToString(n)) == n
  {
    if n >= 10 {
      var s := NatToString(n);
      NatToStringValue(n / 10);
      assert s[..|s| - 1] == NatToString(n / 10);
    }
  }

  /** The decimal text is one-to-one. */
  lemma NatToStringInjective(m: nat, n: nat)
    requires NatToString(m) == NatToString(n)
    ensures m == n
  {
    NatToStringValue(m);
    NatToStringValue(n);
  }

  /** The ABC length token of a duration, for every real duration. It never
      holds a space, and it is empty exactly for durations that are neither
      in the table nor at least four beats: the silent fallback. */
  function AbcLength(d: real): (r: string)
    ensures ' ' !in r
    ensures r == "" <==> !InTable(d) && d < 4.0
  {
    if d == 0.25 then "/4"
    else if d == 0.5 then "/2"
    else if d == 0.75 then "3/4"
    else if d == 1.0 then "1"
    else if d == 1.5 then "3/2"
    else if d == 2.0 then "2"
    else if d == 3.0 then "3"
    else if d >= 4.0 then NatToString((d / 4.0).Floor)
    else ""
  }

  /** The durations the table matches exactly. */
  predicate InTable(d: real)
  {
    d == 0.25 || d == 0.5 || d == 0.75 || d == 1.0 || d == 1.5 || d == 2.0 || d == 3.0
  }

  /** Four beats or more: the token is the decimal number of whole notes,
      `floor(d / 4)`, which is at least 1. */
  lemma LengthWholeNotes(d: real)
    requires d >= 4.0
    ensures var s := AbcLength(d);
      s != [] && (forall i :: 0 <= i < |s| ==> IsDigit(s[i]))
      && DigitsValue(s) == (d / 4.0).Floor >= 1
  {
    NatToStringValue((d / 4.0).Floor);
  }

  /** The table, and worked values for whole notes and for the fallback. */
  lemma LengthExamples()
    ensures AbcLength(0.25) == "/4" && AbcLength(0.5) == "/2" && AbcLength(0.75) == "3/4"
    ensures AbcLength(1.0) == "1" && AbcLength(1.5) == "3/2"
    ensures AbcLength(2.0) == "2" && AbcLength(3.0) == "3"
    ensures AbcLength(4.0) == "1" && AbcLength(7.0) == "1" && AbcLength(8.0) == "2"
    ensures AbcLength(40.0) == "10"
    ensures AbcLength(0.33) == "" && AbcLength(-1.0) == "" && AbcLength(3.5) == ""
  {
    assert (4.0 / 4.0).Floor == 1;
    assert (7.0 / 4.0).Floor == 1;
    assert (8.0 / 4.0).Floor == 2;
    assert (40.0 / 4.0).Floor == 10;
    assert NatToString(10) == NatToString(1) + [DigitChar(0)];
  }
}
