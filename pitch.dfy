/** `midi_note_to_abc_pitch`: a MIDI note number becomes an ABC pitch token,
    a note name from a twelve-entry chromatic table followed by octave
    markers. Python's `//` and `%` by 12 floor; Dafny's `/` and `%` by a
    positive divisor agree with them on every integer, negative ones included. */
module Pitch {
  import opened Text

  /** The chromatic table: naturals and sharps, no flats. */
  const NoteNames: seq<string> :=
    ["C", "^C", "D", "^D", "E", "F", "^F", "G", "^G", "A", "^A", "B"]

  /** The octave number the source computes: `n // 12 - 1`. */
  function Octave(n: int): int
  {
    n / 12 - 1
  }

  /** The ABC pitch token of MIDI note `n`, for every integer `n`: never
      empty, and never holding a space, so tokens can be joined with spaces
      and split again. */
  function AbcPitch(n: int): (r: string)
    ensures r != [] && ' ' !in r
  {
    NamesWellFormed(n % 12);
    var octave := Octave(n);
    var name := NoteNames[n % 12];
    if octave < 5 then Lower(name) + Repeat(',', 5 - octave - 1)
    else if octave > 5 then name + Repeat('\'', octave - 5)
    else Lower(name)
  }

  /** The token without its octave markers. */
  function Name(token: string): string
  {
    Replace(Replace(token, ",", ""), "'", "")
  }

  /** Semitone of a natural note letter above C. */
  function LetterSemitone(c: char): Option<nat>
  {
    match c
    case 'C' => Some(0)
    case 'D' => Some(2)
    case 'E' => Some(4)
    case 'F' => Some(5)
    case 'G' => Some(7)
    case 'A' => Some(9)
    case 'B' => Some(11)
    case _ => None
  }

  /** The pitch class an upper-case table-style name spells: a letter,
      raised one semitone by a leading `^`. */
  function NameClass(name: string): (k: Option<nat>)
    ensures k.Some? ==> k.value < 12
  {
    if |name| == 1 then LetterSemitone(name[0])
    else if |name| == 2 && name[0] == '^' && name[1] != 'E' && name[1] != 'B' then
      match LetterSemitone(name[1])
      case None => None
      case Some(s) => Some(s + 1)
    else None
  }

  /** Partial inverse, part one: the pitch class the token's name spells,
      read in either case. */
  function PitchClassOf(token: string): (k: Option<nat>)
    ensures k.Some? ==> k.value < 12
  {
    NameClass(Upper(Name(token)))
  }

  /** Each table entry spells its own index. */
  lemma TableClass(k: nat)
    requires k < 12
    ensures NameClass(NoteNames[k]) == Some(k)
  {
    if k == 0 { assert NoteNames[k] == "C"; }
    else if k == 1 { assert NoteNames[k] == "^C"; }
    else if k == 2 { assert NoteNames[k] == "D"; }
    else if k == 3 { assert NoteNames[k] == "^D"; }
    else if k == 4 { assert NoteNames[k] == "E"; }
    else if k == 5 { assert NoteNames[k] == "F"; }
    else if k == 6 { assert NoteNames[k] == "^F"; }
    else if k == 7 { assert NoteNames[k] == "G"; }
    else if k == 8 { assert NoteNames[k] == "^G"; }
    else if k == 9 { assert NoteNames[k] == "A"; }
    else if k == 10 { assert NoteNames[k] == "^A"; }
    else { assert NoteNames[k] == "B"; }
  }

  /** Partial inverse, part two: the octave the markers and the letter case
      stand for. A lower-case name with `k` commas reads as octave `4 - k`,
      an upper-case name with `k` apostrophes as octave `5 + k`. */
  function RegisterOf(token: string): int
  {
    if Lower(Name(token)) == Name(token) then 4 - Count(token, ',')
    else 5 + Count(token, '\'')
  }

  /** No table name holds a marker, and each holds one upper-case letter. */
  lemma NamesWellFormed(k: nat)
    requires k < 12
    ensures ',' !in NoteNames[k] && '\'' !in NoteNames[k] && ' ' !in NoteNames[k]
    ensures Upper(Lower(NoteNames[k])) == NoteNames[k]
    ensures Lower(Lower(NoteNames[k])) == Lower(NoteNames[k])
    ensures Lower(NoteNames[k]) != NoteNames[k]
    ensures ',' !in Lower(NoteNames[k]) && '\'' !in Lower(NoteNames[k]) && ' ' !in Lower(NoteNames[k])
  {
    var name := NoteNames[k];
    assert name == "C" || name == "^C" || name == "D" || name == "^D" || name == "E" || name == "F"
      || name == "^F" || name == "G" || name == "^G" || name == "A" || name == "^A" || name == "B";
    assert Lower(name)[|name| - 1] != name[|name| - 1];
  }

  /** Below octave 5: the lower-case name, then `4 - octave` commas. */
  lemma TokenLow(n: int)
    requires Octave(n) < 5
    ensures AbcPitch(n) == Lower(NoteNames[n % 12]) + Repeat(',', 4 - Octave(n))
  {
  }

  /** Above octave 5: the table name, then `octave - 5` apostrophes. */
  lemma TokenHigh(n: int)
    requires Octave(n) > 5
    ensures AbcPitch(n) == NoteNames[n % 12] + Repeat('\'', Octave(n) - 5)
  {
  }

  /** At octave 5: the bare lower-case name. */
  lemma TokenMiddle(n: int)
    requires Octave(n) == 5
    ensures AbcPitch(n) == Lower(NoteNames[n % 12]) + Repeat('\'', 0)
  {
    assert Repeat('\'', 0) == "";
  }

  /** Below octave 5 the token carries exactly `4 - octave` commas, and none
      otherwise. */
  lemma PitchCommas(n: int)
    ensures Count(AbcPitch(n), ',') == if Octave(n) < 5 then 4 - Octave(n) else 0
  {
    var octave := Octave(n);
    var name := NoteNames[n % 12];
    NamesWellFormed(n % 12);
    if octave < 5 {
      TokenLow(n);
      CountMarks(Lower(name), ',', 4 - octave, ',');
    } else if octave > 5 {
      TokenHigh(n);
      CountMarks(name, '\'', octave - 5, ',');
    } else {
      TokenMiddle(n);
      CountMarks(Lower(name), '\'', 0, ',');
    }
  }

  /** Above octave 5 the token carries exactly `octave - 5` apostrophes, and
      none otherwise. */
  lemma PitchApostrophes(n: int)
    ensures Count(AbcPitch(n), '\'') == if Octave(n) > 5 then Octave(n) - 5 else 0
  {
    var octave := Octave(n);
    var name := NoteNames[n % 12];
    NamesWellFormed(n % 12);
    if octave < 5 {
      TokenLow(n);
      CountMarks(Lower(name), ',', 4 - octave, '\'');
    } else if octave > 5 {
      TokenHigh(n);
      CountMarks(name, '\'', octave - 5, '\'');
    } else {
      TokenMiddle(n);
      CountMarks(Lower(name), '\'', 0, '\'');
    }
  }

  /** Counting a marker in a name followed by `k` copies of one marker. */
  lemma CountMarks(base: string, c: char, k: nat, d: char)
    requires d !in base
    ensures Count(base + Repeat(c, k), d) == if d == c then k else 0
  {
    CountConcat(base, Repeat(c, k), d);
    RepeatCount(c, k, d);
  }

  /** Stripping the markers gives back the table name, lower-cased exactly
      when the octave is 5 or below. */
  lemma PitchName(n: int)
    ensures Name(AbcPitch(n)) == if Octave(n) <= 5 then Lower(NoteNames[n % 12]) else NoteNames[n % 12]
  {
    var octave := Octave(n);
    var name := NoteNames[n % 12];
    NamesWellFormed(n % 12);
    if octave < 5 {
      TokenLow(n);
      StripCommas(Lower(name), 4 - octave);
    } else if octave > 5 {
      TokenHigh(n);
      StripApostrophes(name, octave - 5);
    } else {
      TokenMiddle(n);
      StripApostrophes(Lower(name), 0);
    }
  }

  /** A marker-free name followed by commas: deleting the markers leaves the
      name. */
  lemma StripCommas(base: string, k: nat)
    requires ',' !in base && '\'' !in base
    ensures Name(base + Repeat(',', k)) == base
  {
    var marks := Repeat(',', k);
    ReplaceCharConcat(base, marks, ',', "");
    ReplaceCharAbsent(base, ',', "");
    ReplaceCharGoneAll(marks, ',');
    assert base + "" == base;
    ReplaceCharAbsent(base, '\'', "");
  }

  /** A marker-free name followed by apostrophes: deleting the markers leaves
      the name. */
  lemma StripApostrophes(base: string, k: nat)
    requires ',' !in base && '\'' !in base
    ensures Name(base + Repeat('\'', k)) == base
  {
    var marks := Repeat('\'', k);
    assert ',' !in marks;
    ReplaceCharAbsent(base + marks, ',', "");
    ReplaceCharConcat(base, marks, '\'', "");
    ReplaceCharAbsent(base, '\'', "");
    ReplaceCharGoneAll(marks, '\'');
    assert base + "" == base;
  }

  /** Text made only of `c` vanishes when `c` is deleted. */
  lemma {:induction false} ReplaceCharGoneAll(s: string, c: char)
    requires forall i :: 0 <= i < |s| ==> s[i] == c
    ensures Replace(s, [c], "") == ""
    decreases |s|
  {
    if s != [] {
      assert s[..1] == [c];
      ReplaceCharGoneAll(s[1..], c);
    }
  }

  /** The token always names the pitch class it came from. */
  lemma PitchClassRecovered(n: int)
    ensures PitchClassOf(AbcPitch(n)) == Some(n % 12)
  {
    PitchName(n);
    NamesWellFormed(n % 12);
    assert Upper(Name(AbcPitch(n))) == NoteNames[n % 12];
    TableClass(n % 12);
  }

  /** The token gives back the octave, except that octave 5 reads as 4: the
      two are written alike. */
  lemma RegisterRecovered(n: int)
    ensures RegisterOf(AbcPitch(n)) == if Octave(n) == 5 then 4 else Octave(n)
  {
    PitchName(n);
    PitchCommas(n);
    PitchApostrophes(n);
    NamesWellFormed(n % 12);
  }

  /** The encoding is not injective: octave 4 takes no comma and octave 5 no
      apostrophe, so the notes 60..71 and 72..83 share their tokens. */
  lemma PitchNotInjective(p: int)
    requires 60 <= p <= 71
    ensures AbcPitch(p) == AbcPitch(p + 12)
  {
    assert Octave(p) == 4 && Octave(p + 12) == 5;
    assert (p + 12) % 12 == p % 12;
  }

  /** Apart from that one octave pair the encoding is injective. */
  lemma PitchInjectiveElsewhere(p: int, q: int)
    requires AbcPitch(p) == AbcPitch(q)
    ensures p == q || (60 <= p <= 71 && q == p + 12) || (60 <= q <= 71 && p == q + 12)
  {
    PitchClassRecovered(p);
    PitchClassRecovered(q);
    RegisterRecovered(p);
    RegisterRecovered(q);
    assert p % 12 == q % 12;
    assert p == 12 * (Octave(p) + 1) + p % 12;
    assert q == 12 * (Octave(q) + 1) + q % 12;
  }

  /** Worked values: the reference octave, one octave down, the lowest note,
      two octaves up, and a sharp. */
  lemma PitchExamples()
    ensures AbcPitch(60) == "c" && AbcPitch(72) == "c"
    ensures AbcPitch(48) == "c," && AbcPitch(0) == "c,,,,,"
    ensures AbcPitch(84) == "C'" && AbcPitch(61) == "^c" && AbcPitch(97) == "^C''"
  {
    MiddleExamples();
    LowExamples();
    HighExamples();
  }

  lemma MiddleExamples()
    ensures AbcPitch(60) == "c" && AbcPitch(72) == "c" && AbcPitch(61) == "^c"
  {
    assert Repeat(',', 0) == "";
    assert Lower("C") == "c";
    assert Lower("^C") == "^c";
  }

  lemma LowExamples()
    ensures AbcPitch(48) == "c," && AbcPitch(0) == "c,,,,,"
  {
    assert Repeat(',', 1) == ",";
    assert Repeat(',', 5) == ",,,,,";
    assert Lower("C") == "c";
  }

  lemma HighExamples()
    ensures AbcPitch(84) == "C'" && AbcPitch(97) == "^C''"
  {
    assert Repeat('\'', 1) == "'";
    assert Repeat('\'', 2) == "''";
  }
}
