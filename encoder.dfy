/** `notes_to_abc`: the flat note list a clip reports, read in groups of five
    `(pitch, start, duration, velocity, mute)`, becomes the space-separated
    ABC body. Any failure inside the loop (the list missing, a short last
    group, a pitch that is not an integer) is caught and the whole result is
    the empty string. */
module Encoder {
  import opened Text
  import Pitch
  import Duration

  /** A value in the reported list: Python ints and floats. */
  datatype Val = I(i: int) | R(r: real)

  /** The value as a real, which is how the duration comparisons see it. */
  function AsReal(v: Val): real
  {
    match v
    case I(i) => i as real
    case R(r) => r
  }

  /** The token of one group: its pitch, its length, then the separator. */
  function NoteToken(pitch: int, duration: Val): string
  {
    Pitch.AbcPitch(pitch) + Duration.AbcLength(AsReal(duration)) + " "
  }

  /** The first `k` groups are whole and each one's pitch is an integer (a
      float pitch fails at the table lookup with a float index). */
  predicate GoodGroups(notes: seq<Val>, k: nat)
  {
    5 * k <= |notes| && forall j :: 0 <= j < k ==> notes[5 * j].I?
  }

  /** The loop runs to the end without raising: the list splits into whole
      groups and every group's pitch is an integer. */
  predicate Encodable(notes: seq<Val>)
  {
    |notes| % 5 == 0 && GoodGroups(notes, |notes| / 5)
  }

  /** The tokens of the first `k` groups, one per group, in list order,
      each made by `tok` from the group's pitch and duration. */
  function GroupTokens(notes: seq<Val>, k: nat, tok: (int, Val) -> string): (toks: seq<string>)
    requires GoodGroups(notes, k)
    ensures |toks| == k
  {
    seq(k, j requires 0 <= j < k => tok(notes[5 * j].i, notes[5 * j + 2]))
  }

  /** Strings joined end to end, the way `+=` grows the result. */
  function Concat(toks: seq<string>): string
  {
    if toks == [] then "" else Concat(toks[..|toks| - 1]) + toks[|toks| - 1]
  }

  /** The body for an encodable list: its group tokens joined end to end.
      It holds one space per note, and a non-empty body ends with the
      separator space of its last note. */
  function Body(notes: seq<Val>): (r: string)
    requires Encodable(notes)
    ensures Count(r, ' ') == |notes| / 5
    ensures notes != [] ==> r != [] && r[|r| - 1] == ' '
  {
    var toks := GroupTokens(notes, |notes| / 5, NoteToken);
    TokensSeparated();
    GroupTokensSeparated(notes, |notes| / 5, NoteToken);
    ConcatSpaces(toks);
    Concat(toks)
  }

  /** A token holding exactly one space, as its last character. */
  predicate Separated(t: string)
  {
    Count(t, ' ') == 1 && t != [] && t[|t| - 1] == ' '
  }

  /** A group's token is separated: neither the pitch nor the length token
      holds a space. */
  lemma TokenSeparated(pitch: int, duration: Val)
    ensures Separated(NoteToken(pitch, duration))
  {
    var p := Pitch.AbcPitch(pitch);
    var l := Duration.AbcLength(AsReal(duration));
    CountConcat(p, l, ' ');
    CountConcat(p + l, " ", ' ');
  }

  lemma TokensSeparated()
    ensures forall pitch, duration :: Separated(NoteToken(pitch, duration))
  {
    forall pitch, duration
      ensures Separated(NoteToken(pitch, duration))
    {
      TokenSeparated(pitch, duration);
    }
  }

  lemma GroupTokensSeparated(notes: seq<Val>, k: nat, tok: (int, Val) -> string)
    requires GoodGroups(notes, k)
    requires forall pitch, duration :: Separated(tok(pitch, duration))
    ensures forall j :: 0 <= j < k ==> Separated(GroupTokens(notes, k, tok)[j])
  {
  }

  /** Joining separated tokens gives one space per token, and a space at
      the end. */
  lemma {:induction false} ConcatSpaces(toks: seq<string>)
    requires forall j :: 0 <= j < |toks| ==> Separated(toks[j])
    ensures Count(Concat(toks), ' ') == |toks|
    ensures toks != [] ==> Concat(toks) != [] && Concat(toks)[|Concat(toks)| - 1] == ' '
  {
    if toks != [] {
      var init, last := toks[..|toks| - 1], toks[|toks| - 1];
      assert Separated(last);
      ConcatSpaces(init);
      var whole := Concat(toks);
      assert whole == Concat(init) + last;
      CountConcat(Concat(init), last, ' ');
      assert whole[|whole| - 1] == last[|last| - 1];
    }
  }

  /** Joining a prefix of the tokens gives a prefix of the whole. */
  lemma {:induction false} ConcatPrefix(toks: seq<string>, k: nat)
    requires k <= |toks|
    ensures Concat(toks[..k]) <= Concat(toks)
    decreases |toks|
  {
    if k < |toks| {
      var init := toks[..|toks| - 1];
      assert init[..k] == toks[..k];
      ConcatPrefix(init, k);
    } else {
      assert toks[..k] == toks;
    }
  }

  /** The first `k` group tokens begin the first `m`. */
  lemma GroupTokensPrefix(notes: seq<Val>, k: nat, m: nat, tok: (int, Val) -> string)
    requires k <= m && GoodGroups(notes, m)
    ensures GoodGroups(notes, k) && GroupTokens(notes, m, tok)[..k] == GroupTokens(notes, k, tok)
  {
  }

  /** One more group, the one at position `i`, adds its token at the end:
      the loop's `+=`. */
  lemma ConcatStep(notes: seq<Val>, k: nat, i: nat, tok: (int, Val) -> string)
    requires i == 5 * k && GoodGroups(notes, k + 1)
    ensures notes[i].I?
    ensures Concat(GroupTokens(notes, k + 1, tok))
      == Concat(GroupTokens(notes, k, tok)) + tok(notes[i].i, notes[i + 2])
  {
    GroupTokensPrefix(notes, k, k + 1, tok);
  }

  /** The token of group `k` comes right after the tokens of the groups
      before it, within the tokens of the first `m` groups. */
  lemma ConcatOrder(notes: seq<Val>, k: nat, m: nat, tok: (int, Val) -> string)
    requires k < m && GoodGroups(notes, m)
    ensures notes[5 * k].I?
    ensures Concat(GroupTokens(notes, k, tok)) + tok(notes[5 * k].i, notes[5 * k + 2])
      <= Concat(GroupTokens(notes, m, tok))
  {
    GroupTokensPrefix(notes, k + 1, m, tok);
    ConcatPrefix(GroupTokens(notes, m, tok), k + 1);
    ConcatStep(notes, k, 5 * k, tok);
  }

  /** Tokens come in list order: in the body, the token of group `k` comes
      right after the tokens of the groups before it. */
  lemma BodyOrder(notes: seq<Val>, k: nat)
    requires Encodable(notes) && k < |notes| / 5
    ensures notes[5 * k].I?
    ensures Concat(GroupTokens(notes, k, NoteToken)) + NoteToken(notes[5 * k].i, notes[5 * k + 2])
      <= Body(notes)
  {
    ConcatOrder(notes, k, |notes| / 5, NoteToken);
  }

  /** Python's `notes_to_abc`. `None` stands for the failed query whose result
      the caller passes straight in. */
  method NotesToAbc(notes: Option<seq<Val>>) returns (abc: string)
    ensures abc == if notes.Some? && Encodable(notes.value) then Body(notes.value) else ""
  {
    if notes.None? {
      // len(None) raises inside the try block.
      return "";
    }
    var ns := notes.value;
    abc := "";
    var i := 0;
    ghost var k := 0;
    while i < |ns|
      invariant i == 5 * k <= |ns|
      invariant GoodGroups(ns, k)
      invariant abc == Concat(GroupTokens(ns, k, NoteToken))
      decreases |ns| - i
    {
      if i + 5 > |ns| {
        // Unpacking a short group into five names raises.
        ShortTail(ns, k);
        return "";
      }
      if !ns[i].I? {
        // A float index into the name table raises.
        BadPitch(ns, k);
        return "";
      }
      var token := Token(ns[i].i, ns[i + 2]);
      assert GoodGroups(ns, k + 1) && abc + token == Concat(GroupTokens(ns, k + 1, NoteToken)) by {
        ConcatStep(ns, k, i, NoteToken);
      }
      abc := abc + token;
      i, k := i + 5, k + 1;
    }
    Finished(ns, k);
  }

  /** The loop's first exit: fewer than five values are left. */
  lemma ShortTail(ns: seq<Val>, k: nat)
    requires 5 * k < |ns| < 5 * k + 5
    ensures !Encodable(ns)
  {
    assert |ns| % 5 != 0;
  }

  /** The loop's second exit: the pitch of a whole group is not an integer. */
  lemma BadPitch(ns: seq<Val>, k: nat)
    requires 5 * k + 5 <= |ns| && !ns[5 * k].I?
    ensures !Encodable(ns)
  {
    var n := |ns| / 5;
    assert k < n;
  }

  /** The loop's normal exit: every group was read. */
  lemma Finished(ns: seq<Val>, k: nat)
    requires 5 * k == |ns| && GoodGroups(ns, k)
    ensures Encodable(ns) && Body(ns) == Concat(GroupTokens(ns, k, NoteToken))
  {
    assert k == |ns| / 5;
  }

  /** One group's token, as the loop body builds it. */
  method Token(pitch: int, duration: Val) returns (token: string)
    ensures token == NoteToken(pitch, duration)
  {
    var abcPitch := Pitch.AbcPitch(pitch);
    var abcLength := Duration.AbcLength(AsReal(duration));
    token := abcPitch + abcLength + " ";
  }

  /** One note at middle C for a quarter beat, then one two octaves down
      lasting two whole notes. */
  lemma BodyExample()
    ensures Body([I(60), R(0.0), R(0.25), I(100), I(0), I(36), R(1.0), I(8), I(90), I(0)])
      == "c/4 c,,2 "
  {
    ExampleTokens();
  }

  lemma ExampleTokens()
    ensures Concat(GroupTokens([I(60), R(0.0), R(0.25), I(100), I(0), I(36), R(1.0), I(8), I(90), I(0)], 2, NoteToken))
      == "c/4 c,,2 "
  {
    ExampleGroups(NoteToken);
    ExampleNoteTokens();
  }

  lemma ExampleGroups(tok: (int, Val) -> string)
    ensures Concat(GroupTokens([I(60), R(0.0), R(0.25), I(100), I(0), I(36), R(1.0), I(8), I(90), I(0)], 2, tok))
      == tok(60, R(0.25)) + tok(36, I(8))
  {
    var notes := [I(60), R(0.0), R(0.25), I(100), I(0), I(36), R(1.0), I(8), I(90), I(0)];
    assert notes[0] == I(60) && notes[2] == R(0.25);
    assert notes[5] == I(36) && notes[7] == I(8);
    assert GroupTokens(notes, 0, tok) == [];
    ConcatStep(notes, 0, 0, tok);
    ConcatStep(notes, 1, 5, tok);
  }

  lemma ExampleNoteTokens()
    ensures NoteToken(60, R(0.25)) == "c/4 "
    ensures NoteToken(36, I(8)) == "c,,2 "
  {
    assert Pitch.AbcPitch(60) == "c" by {
      Pitch.PitchExamples();
    }
    assert Duration.AbcLength(0.25) == "/4" && Duration.AbcLength(8.0) == "2" by {
      Duration.LengthExamples();
    }
    assert Pitch.AbcPitch(36) == "c,," by {
      assert Repeat(',', 2) == ",,";
      assert Lower("C") == "c";
    }
  }
}
