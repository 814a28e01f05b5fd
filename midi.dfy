/** `midifile_to_notes`: a stream of MIDI messages, each carrying the time
    since the previous message, becomes a list of notes
    `(note, velocity, start, duration)`, a rounded length and the first
    program number. Times are exact reals.

    The source keeps a running clock `t` that it advances AFTER handling a
    message, so a message is handled at the sum of the deltas of the messages
    before it; a `note_on` is stored at that time, and a `note_off` adds its
    own delta back when it computes the duration. */
module Midi {
  import opened Text

  /** The messages the reconstruction distinguishes; every other message type
      only advances the clock. */
  datatype Msg =
    | NoteOn(note: int, velocity: int, time: real)
    | NoteOff(note: int, time: real)
    | ProgramChange(program: int, time: real)
    | Other(time: real)

  /** One reconstructed note: Python's 4-tuple. */
  datatype NoteEvent = NoteEvent(note: int, velocity: int, start: real, duration: real)

  /** What the function returns: notes, rounded length, instrument. */
  datatype Timeline = Timeline(notes: seq<NoteEvent>, length: int, instrument: Option<int>)

  /** Why the function raises: an empty stream leaves `msg` unbound at the
      clock roll-back, and a `note_off` whose pitch was never switched on
      fails the assertion. */
  datatype ReconstructError = EmptyStream | MissingOnset(index: nat)

  /** An open onset as stored in the per-pitch table. */
  datatype Onset = Onset(velocity: int, time: real)

  /** Sum of the deltas of `ms`: the clock after handling all of them. */
  function Clock(ms: seq<Msg>): real
  {
    if ms == [] then 0.0 else Clock(ms[..|ms| - 1]) + ms[|ms| - 1].time
  }

  predicate IsOnFor(m: Msg, note: int)
  {
    m.NoteOn? && m.note == note
  }

  /** Index of the most recent `note_on` for `note` in `ms`. */
  function LastOnset(ms: seq<Msg>, note: int): (r: Option<nat>)
    ensures r.Some? ==>
      r.value < |ms| && IsOnFor(ms[r.value], note) && forall k :: r.value < k < |ms| ==> !IsOnFor(ms[k], note)
    ensures r.None? ==> forall k :: 0 <= k < |ms| ==> !IsOnFor(ms[k], note)
  {
    if ms == [] then None
    else if IsOnFor(ms[|ms| - 1], note) then Some(|ms| - 1)
    else LastOnset(ms[..|ms| - 1], note)
  }

  /** The note a `note_off` closes after the messages `pre`, as the source
      builds it: the velocity of the latest `note_on` `j` for that pitch, the
      clock before `j` as start, and the clock after the `note_off` minus
      that start as duration. */
  function ClosedNote(pre: seq<Msg>, off: Msg): NoteEvent
    requires off.NoteOff? && LastOnset(pre, off.note).Some?
  {
    var j := LastOnset(pre, off.note).value;
    NoteEvent(off.note, pre[j].velocity, Clock(pre[..j]), Clock(pre) + off.time - Clock(pre[..j]))
  }

  /** The notes of a stream, one per `note_off` in `note_off` order, or the
      index of the first `note_off` with no earlier `note_on`. */
  function Notes(ms: seq<Msg>): (r: Result<seq<NoteEvent>, ReconstructError>)
    ensures r.Success? ==> |r.value| == NoteOffCount(ms)
    ensures r.Failure? ==>
      r.error.MissingOnset? && r.error.index < |ms| && ms[r.error.index].NoteOff?
      && LastOnset(ms[..r.error.index], ms[r.error.index].note).None?
  {
    if ms == [] then Success([])
    else
      var k := |ms| - 1;
      match Notes(ms[..k])
      case Failure(e) =>
        assert ms[..k][..e.index] == ms[..e.index];
        Failure(e)
      case Success(notes) =>
        if !ms[k].NoteOff? then Success(notes)
        else if LastOnset(ms[..k], ms[k].note).None? then Failure(MissingOnset(k))
        else Success(notes + [ClosedNote(ms[..k], ms[k])])
  }

  /** The program number of the first `program_change`. */
  function FirstProgram(ms: seq<Msg>): Option<int>
  {
    if ms == [] then None
    else if ms[0].ProgramChange? then Some(ms[0].program)
    else FirstProgram(ms[1..])
  }

  /** Python 3 `round` on a real: the nearest integer, ties to the even one. */
  function RoundHalfEven(x: real): (r: int)
    ensures -0.5 <= r as real - x <= 0.5
    ensures (r as real - x == 0.5 || x - r as real == 0.5) ==> r % 2 == 0
  {
    var f := x.Floor;
    var d := x - f as real;
    if d < 0.5 then f
    else if d > 0.5 then f + 1
    else if f % 2 == 0 then f
    else f + 1
  }

  /** The whole result of the source function, failures included: it
      succeeds exactly on a non-empty stream whose every `note_off` is
      matched, with one note per `note_off`, and an empty stream fails on
      its own. */
  function Reconstruct(ms: seq<Msg>): (r: Result<Timeline, ReconstructError>)
    ensures r.Success? <==> ms != [] && AllMatched(ms)
    ensures ms == [] ==> r == Failure(EmptyStream)
    ensures r.Success? ==> |r.value.notes| == NoteOffCount(ms)
  {
    NotesSucceedIff(ms);
    if ms == [] then Failure(EmptyStream)
    else match Notes(ms)
      case Failure(e) => Failure(e)
      case Success(notes) =>
        Success(Timeline(notes, RoundHalfEven(Clock(ms[..|ms| - 1])), FirstProgram(ms)))
  }

  /** FirstProgram read from the end, as the loop sees it. */
  lemma {:induction false} FirstProgramSnoc(ms: seq<Msg>, m: Msg)
    ensures FirstProgram(ms + [m]) ==
      if FirstProgram(ms).Some? then FirstProgram(ms)
      else if m.ProgramChange? then Some(m.program)
      else None
    decreases |ms|
  {
    if ms == [] {
      assert [m][1..] == [];
    } else {
      assert (ms + [m])[1..] == ms[1..] + [m];
      FirstProgramSnoc(ms[1..], m);
    }
  }

  /** Once a failure occurs, the rest of the stream does not matter. */
  lemma {:induction false} NotesFailureSticks(ms: seq<Msg>, i: nat)
    requires i <= |ms| && Notes(ms[..i]).Failure?
    ensures Notes(ms) == Notes(ms[..i])
    decreases |ms| - i
  {
    if i < |ms| {
      assert ms[..i + 1][..i] == ms[..i];
      NotesFailureSticks(ms, i + 1);
    } else {
      assert ms[..i] == ms;
    }
  }

  /** What the table the loop keeps after reading `pre` holds for pitch `p`:
      an entry exactly when `p` was switched on, with the velocity of its
      latest `note_on` and the clock before it. */
  ghost predicate TableAgrees(pre: seq<Msg>, onsets: map<int, Onset>, p: int)
  {
    (p in onsets <==> LastOnset(pre, p).Some?)
    && (p in onsets ==>
      var j := LastOnset(pre, p).value; onsets[p] == Onset(pre[j].velocity, Clock(pre[..j])))
  }

  /** The per-pitch table agrees with the messages read for every pitch. */
  ghost predicate OnsetTable(pre: seq<Msg>, onsets: map<int, Onset>)
  {
    forall p :: TableAgrees(pre, onsets, p)
  }

  /** A `note_on` overwrites its pitch's entry; nothing else changes the table
      (a `note_off` leaves its entry in place). */
  lemma OnsetTableStep(pre: seq<Msg>, m: Msg, onsets: map<int, Onset>)
    requires OnsetTable(pre, onsets)
    ensures OnsetTable(pre + [m], if m.NoteOn? then onsets[m.note := Onset(m.velocity, Clock(pre))] else onsets)
  {
    var all := pre + [m];
    var next := if m.NoteOn? then onsets[m.note := Onset(m.velocity, Clock(pre))] else onsets;
    assert all[..|pre|] == pre;
    forall p ensures TableAgrees(all, next, p) {
      assert TableAgrees(pre, onsets, p);
      if LastOnset(all, p).Some? && LastOnset(all, p).value < |pre| {
        assert all[..LastOnset(all, p).value] == pre[..LastOnset(all, p).value];
      }
    }
  }

  lemma ClockSnoc(pre: seq<Msg>, m: Msg)
    ensures Clock(pre + [m]) == Clock(pre) + m.time
  {
    assert (pre + [m])[..|pre|] == pre;
  }

  /** `Notes` of a stream with one more message, read from `Notes` of the
      stream before it. */
  lemma NotesSnoc(pre: seq<Msg>, m: Msg, notes: seq<NoteEvent>)
    requires Notes(pre) == Success(notes)
    ensures Notes(pre + [m]) ==
      if !m.NoteOff? then Success(notes)
      else if LastOnset(pre, m.note).None? then Failure(MissingOnset(|pre|))
      else Success(notes + [ClosedNote(pre, m)])
  {
    assert (pre + [m])[..|pre|] == pre;
  }

  /** What the table says about one pitch. */
  lemma TableEntry(pre: seq<Msg>, onsets: map<int, Onset>, p: int)
    requires OnsetTable(pre, onsets)
    ensures p in onsets <==> LastOnset(pre, p).Some?
    ensures p in onsets ==>
      var j := LastOnset(pre, p).value; onsets[p] == Onset(pre[j].velocity, Clock(pre[..j]))
  {
    assert TableAgrees(pre, onsets, p);
  }

  /** One more message extends the notes, or fails at a `note_off` whose
      pitch is not in the table. */
  lemma NotesStep(pre: seq<Msg>, m: Msg, notes: seq<NoteEvent>, onsets: map<int, Onset>)
    requires Notes(pre) == Success(notes) && OnsetTable(pre, onsets)
    ensures Notes(pre + [m]) ==
      if !m.NoteOff? then Success(notes)
      else if m.note !in onsets then Failure(MissingOnset(|pre|))
      else
        var prev := onsets[m.note];
        Success(notes + [NoteEvent(m.note, prev.velocity, prev.time, Clock(pre) - prev.time + m.time)])
  {
    if !m.NoteOff? {
      NotesSnoc(pre, m, notes);
    } else if m.note !in onsets {
      MissingStep(pre, m, notes, onsets);
    } else {
      ClosedFromTable(pre, m, onsets);
      NotesSnoc(pre, m, notes);
    }
  }

  lemma MissingStep(pre: seq<Msg>, m: Msg, notes: seq<NoteEvent>, onsets: map<int, Onset>)
    requires Notes(pre) == Success(notes) && OnsetTable(pre, onsets)
    requires m.NoteOff? && m.note !in onsets
    ensures Notes(pre + [m]) == Failure(MissingOnset(|pre|))
  {
    NotesSnoc(pre, m, notes);
    TableEntry(pre, onsets, m.note);
  }

  /** The note a `note_off` closes, read from the table entry of its pitch. */
  lemma ClosedFromTable(pre: seq<Msg>, m: Msg, onsets: map<int, Onset>)
    requires OnsetTable(pre, onsets) && m.NoteOff? && m.note in onsets
    ensures LastOnset(pre, m.note).Some?
    ensures var prev := onsets[m.note];
      ClosedNote(pre, m) == NoteEvent(m.note, prev.velocity, prev.time, Clock(pre) - prev.time + m.time)
  {
    TableEntry(pre, onsets, m.note);
    ClosedNoteOfEntry(pre, m, onsets[m.note]);
  }

  /** The note closed from a table entry that agrees with the stream. */
  lemma ClosedNoteOfEntry(pre: seq<Msg>, m: Msg, prev: Onset)
    requires m.NoteOff? && LastOnset(pre, m.note).Some?
    requires var j := LastOnset(pre, m.note).value; prev == Onset(pre[j].velocity, Clock(pre[..j]))
    ensures ClosedNote(pre, m) == NoteEvent(m.note, prev.velocity, prev.time, Clock(pre) - prev.time + m.time)
  {
  }

  /** Python's `midifile_to_notes`, as the loop it is. */
  method MidifileToNotes(ms: seq<Msg>) returns (r: Result<Timeline, ReconstructError>)
    ensures r == Reconstruct(ms)
  {
    var onsets: map<int, Onset> := map[];
    var notes: seq<NoteEvent> := [];
    var t := 0.0;
    var instrument: Option<int> := None;
    var i := 0;
    while i < |ms|
      invariant i <= |ms|
      invariant t == Clock(ms[..i])
      invariant Notes(ms[..i]) == Success(notes)
      invariant instrument == FirstProgram(ms[..i])
      invariant OnsetTable(ms[..i], onsets)
    {
      var msg := ms[i];
      LoopStep(ms, i, notes, onsets);
      // The three message types exclude each other.
      if msg.NoteOn? {
        onsets := onsets[msg.note := Onset(msg.velocity, t)];
      } else if msg.NoteOff? {
        if msg.note !in onsets {
          // `assert msg.note in note_ons` fails.
          ReconstructStops(ms, i);
          return Failure(MissingOnset(i));
        }
        var prev := onsets[msg.note];
        notes := notes + [NoteEvent(msg.note, prev.velocity, prev.time, t - prev.time + msg.time)];
      } else if msg.ProgramChange? && instrument.None? {
        instrument := Some(msg.program);
      }
      t := t + msg.time;
      i := i + 1;
    }
    if i == 0 {
      // `t -= msg.time` reads a name the loop never bound.
      return Failure(EmptyStream);
    }
    assert ms[..i] == ms;
    ReconstructEnd(ms, notes, instrument, t);
    // `t -= msg.time` with `msg` the last message.
    t := t - ms[i - 1].time;
    r := Success(Timeline(notes, RoundHalfEven(t), instrument));
  }

  /** What reading message `i` does to each of the loop's variables, in
      terms of the prefix read so far. */
  lemma LoopStep(ms: seq<Msg>, i: nat, notes: seq<NoteEvent>, onsets: map<int, Onset>)
    requires i < |ms| && Notes(ms[..i]) == Success(notes) && OnsetTable(ms[..i], onsets)
    ensures Clock(ms[..i + 1]) == Clock(ms[..i]) + ms[i].time
    ensures FirstProgram(ms[..i + 1]) ==
      if FirstProgram(ms[..i]).Some? then FirstProgram(ms[..i])
      else if ms[i].ProgramChange? then Some(ms[i].program)
      else None
    ensures OnsetTable(ms[..i + 1], if ms[i].NoteOn? then onsets[ms[i].note := Onset(ms[i].velocity, Clock(ms[..i]))] else onsets)
    ensures var m := ms[i];
      Notes(ms[..i + 1]) ==
      if !m.NoteOff? then Success(notes)
      else if m.note !in onsets then Failure(MissingOnset(i))
      else
        var prev := onsets[m.note];
        Success(notes + [NoteEvent(m.note, prev.velocity, prev.time, Clock(ms[..i]) - prev.time + m.time)])
  {
    var pre, m := ms[..i], ms[i];
    assert ms[..i + 1] == pre + [m];
    NotesStep(pre, m, notes, onsets);
    OnsetTableStep(pre, m, onsets);
    FirstProgramSnoc(pre, m);
    ClockSnoc(pre, m);
  }

  /** The loop's early exit: a failure in the stream read so far is the
      failure of the whole reconstruction. */
  lemma ReconstructStops(ms: seq<Msg>, i: nat)
    requires i < |ms| && Notes(ms[..i + 1]).Failure?
    ensures Reconstruct(ms) == Failure(Notes(ms[..i + 1]).error)
  {
    NotesFailureSticks(ms, i + 1);
  }

  /** The loop's normal exit: a whole non-empty stream read without failure. */
  lemma ReconstructEnd(ms: seq<Msg>, notes: seq<NoteEvent>, instrument: Option<int>, t: real)
    requires ms != [] && Notes(ms) == Success(notes) && instrument == FirstProgram(ms) && t == Clock(ms)
    ensures Reconstruct(ms) == Success(Timeline(notes, RoundHalfEven(t - ms[|ms| - 1].time), instrument))
  {
    var k := |ms| - 1;
    assert t - ms[k].time == Clock(ms[..k]) by {
      assert ms[..k] + [ms[k]] == ms;
      ClockSnoc(ms[..k], ms[k]);
    }
  }


  /** The number of `note_off` messages in a stream. */
  function NoteOffCount(ms: seq<Msg>): (n: nat)
    ensures n <= |ms|
  {
    if ms == [] then 0
    else NoteOffCount(ms[..|ms| - 1]) + (if ms[|ms| - 1].NoteOff? then 1 else 0)
  }

  /** Every `note_off` finds an earlier `note_on` for its pitch. */
  ghost predicate AllMatched(ms: seq<Msg>)
  {
    forall k :: 0 <= k < |ms| && ms[k].NoteOff? ==> LastOnset(ms[..k], ms[k].note).Some?
  }

  /** Deltas are never negative, as in a well-formed MIDI file. */
  predicate NonNegDeltas(ms: seq<Msg>)
  {
    forall k :: 0 <= k < |ms| ==> ms[k].time >= 0.0
  }

  /** The reconstruction gets through the stream exactly when every
      `note_off` is matched; otherwise it stops at the first unmatched one,
      and the notes before it were all reconstructed. */
  lemma {:induction false} NotesSucceedIff(ms: seq<Msg>)
    ensures Notes(ms).Success? <==> AllMatched(ms)
    ensures Notes(ms).Failure? ==> Notes(ms).error.MissingOnset?
    ensures Notes(ms).Failure? && Notes(ms).error.MissingOnset? ==>
      var k := Notes(ms).error.index;
      k < |ms| && ms[k].NoteOff?
      && LastOnset(ms[..k], ms[k].note).None? && AllMatched(ms[..k])
  {
    if ms != [] {
      var pre := ms[..|ms| - 1];
      NotesSucceedIff(pre);
      if Notes(pre).Failure? {
        FailureCarries(ms);
      } else {
        MatchedSnoc(ms);
      }
    }
  }

  /** A failure before the last message is the failure of the whole, and
      it shows that the whole is not matched. */
  lemma FailureCarries(ms: seq<Msg>)
    requires ms != [] && Notes(ms[..|ms| - 1]).Failure?
    requires var k := Notes(ms[..|ms| - 1]).error.index; AllMatched(ms[..|ms| - 1][..k])
    ensures Notes(ms) == Notes(ms[..|ms| - 1]) && !AllMatched(ms)
    ensures var k := Notes(ms).error.index; AllMatched(ms[..k])
  {
    var pre := ms[..|ms| - 1];
    var k := Notes(pre).error.index;
    assert pre[..k] == ms[..k] && pre[k] == ms[k];
    assert ms[k].NoteOff? && LastOnset(ms[..k], ms[k].note).None?;
  }

  /** With every message before the last matched, the whole is matched
      unless the last is an unmatched `note_off`. */
  lemma MatchedSnoc(ms: seq<Msg>)
    requires ms != [] && AllMatched(ms[..|ms| - 1])
    ensures var k, last := |ms| - 1, ms[|ms| - 1];
      AllMatched(ms) <==> !(last.NoteOff? && LastOnset(ms[..k], last.note).None?)
  {
    var pre := ms[..|ms| - 1];
    assert forall k :: 0 <= k < |pre| ==> pre[k] == ms[k] && pre[..k] == ms[..k];
  }

  /** The notes of a prefix are a prefix of the notes. */
  lemma {:induction false} NotesPrefix(ms: seq<Msg>, i: nat)
    requires i <= |ms| && Notes(ms).Success?
    ensures Notes(ms[..i]).Success? && Notes(ms[..i]).value <= Notes(ms).value
    decreases |ms|
  {
    if i == |ms| {
      assert ms[..i] == ms;
    } else {
      var pre := ms[..|ms| - 1];
      NotesPrefix(pre, i);
      assert pre[..i] == ms[..i];
    }
  }

  /** Each `note_off` at index `k` closes the latest `note_on` for its pitch
      before `k` and gives the tuple at position "number of earlier
      `note_off`s": note of the off, velocity of that `note_on`, start the
      clock before that `note_on`, duration the clock after the off minus
      the start. */
  lemma NoteOfOff(ms: seq<Msg>, k: nat)
    requires Notes(ms).Success? && k < |ms| && ms[k].NoteOff?
    ensures LastOnset(ms[..k], ms[k].note).Some?
    ensures var notes := Notes(ms).value;
      var j := LastOnset(ms[..k], ms[k].note).value;
      NoteOffCount(ms[..k]) < |notes|
      && notes[NoteOffCount(ms[..k])]
      == NoteEvent(ms[k].note, ms[j].velocity, Clock(ms[..j]), Clock(ms[..k + 1]) - Clock(ms[..j]))
  {
    OffInPrefix(ms, k);
    ClosedNoteInStream(ms, k);
  }

  /** The note the `note_off` at `k` closes sits in the notes right after
      the notes of the messages before it. */
  lemma OffInPrefix(ms: seq<Msg>, k: nat)
    requires Notes(ms).Success? && k < |ms| && ms[k].NoteOff?
    ensures Notes(ms[..k]).Success? && LastOnset(ms[..k], ms[k].note).Some?
    ensures var p := Notes(ms[..k]).value;
      |p| < |Notes(ms).value| && Notes(ms).value[|p|] == ClosedNote(ms[..k], ms[k])
  {
    var pre, off := ms[..k], ms[k];
    assert ms[..k + 1] == pre + [off];
    NotesPrefix(ms, k + 1);
    NotesFailureBlocks(pre, off);
    var p := Notes(pre).value;
    NotesSnoc(pre, off, p);
    var q := p + [ClosedNote(pre, off)];
    assert q <= Notes(ms).value;
    assert q[|p|] == ClosedNote(pre, off);
  }

  /** A failure before a message stays a failure after it. */
  lemma NotesFailureBlocks(pre: seq<Msg>, m: Msg)
    requires Notes(pre + [m]).Success?
    ensures Notes(pre).Success?
  {
    assert (pre + [m])[..|pre|] == pre;
  }

  /** `ClosedNote` of the prefix before index `k`, in terms of the whole
      stream. */
  lemma ClosedNoteInStream(ms: seq<Msg>, k: nat)
    requires k < |ms| && ms[k].NoteOff? && LastOnset(ms[..k], ms[k].note).Some?
    ensures var j := LastOnset(ms[..k], ms[k].note).value;
      ClosedNote(ms[..k], ms[k])
      == NoteEvent(ms[k].note, ms[j].velocity, Clock(ms[..j]), Clock(ms[..k + 1]) - Clock(ms[..j]))
  {
    var pre := ms[..k];
    var j := LastOnset(pre, ms[k].note).value;
    assert pre[..j] == ms[..j] && pre[j] == ms[j];
    assert ms[..k + 1] == pre + [ms[k]];
    ClockSnoc(pre, ms[k]);
  }

  /** With non-negative deltas each note starts at or after 0, lasts a
      non-negative time and ends by the final clock. */
  lemma {:induction false} NotesBounds(ms: seq<Msg>)
    requires NonNegDeltas(ms) && Notes(ms).Success?
    ensures forall e :: e in Notes(ms).value ==>
      0.0 <= e.start && 0.0 <= e.duration && e.start + e.duration <= Clock(ms)
  {
    if ms != [] {
      var pre := ms[..|ms| - 1];
      var last := ms[|ms| - 1];
      assert NonNegDeltas(pre) by {
        assert forall k :: 0 <= k < |pre| ==> pre[k] == ms[k];
      }
      NotesBounds(pre);
      ClockMono(pre, |pre|);
      if last.NoteOff? {
        var j := LastOnset(pre, last.note).value;
        ClockMono(pre, j);
      }
    }
  }

  /** With non-negative deltas the clock only moves forward. */
  lemma {:induction false} ClockMono(ms: seq<Msg>, i: nat)
    requires NonNegDeltas(ms) && i <= |ms|
    ensures 0.0 <= Clock(ms[..i]) <= Clock(ms)
    decreases |ms|
  {
    if ms != [] {
      var pre := ms[..|ms| - 1];
      assert NonNegDeltas(pre) by {
        assert forall k :: 0 <= k < |pre| ==> pre[k] == ms[k];
      }
      if i == |ms| {
        assert ms[..i] == ms;
        ClockMono(pre, 0);
        assert pre[..0] == [];
      } else {
        assert ms[..i] == pre[..i];
        ClockMono(pre, i);
      }
    }
  }

  /** The first `program_change` decides the instrument; with none, there is
      no instrument. */
  lemma {:induction false} FirstProgramIff(ms: seq<Msg>)
    ensures FirstProgram(ms).None? <==> forall k :: 0 <= k < |ms| ==> !ms[k].ProgramChange?
    ensures forall i ::
      (0 <= i < |ms| && ms[i].ProgramChange? && forall k :: 0 <= k < i ==> !ms[k].ProgramChange?) ==>
      FirstProgram(ms) == Some(ms[i].program)
  {
    if ms != [] {
      FirstProgramIff(ms[1..]);
      assert forall k :: 1 <= k < |ms| ==> ms[k] == ms[1..][k - 1];
      forall i | 0 < i < |ms| && ms[i].ProgramChange? && (forall k :: 0 <= k < i ==> !ms[k].ProgramChange?)
        ensures FirstProgram(ms) == Some(ms[i].program)
      {
        assert !ms[0].ProgramChange?;
        assert ms[1..][i - 1] == ms[i];
        assert forall k :: 0 <= k < i - 1 ==> !ms[1..][k].ProgramChange? by {
          assert forall k :: 0 <= k < i - 1 ==> ms[1..][k] == ms[k + 1];
        }
      }
    }
  }

  /** Later `program_change` messages are ignored once one has been seen. */
  lemma {:induction false} FirstProgramWins(a: seq<Msg>, b: seq<Msg>)
    requires FirstProgram(a).Some?
    ensures FirstProgram(a + b) == FirstProgram(a)
  {
    assert a != [];
    assert (a + b)[0] == a[0];
    if !a[0].ProgramChange? {
      assert (a + b)[1..] == a[1..] + b;
      FirstProgramWins(a[1..], b);
    }
  }

  /** Ties go to the even neighbour, everything else to the nearest
      integer, and integers are kept. */
  lemma RoundExamples()
    ensures RoundHalfEven(2.5) == 2 && RoundHalfEven(3.5) == 4 && RoundHalfEven(0.5) == 0
    ensures RoundHalfEven(-0.5) == 0 && RoundHalfEven(-1.5) == -2
    ensures RoundHalfEven(1.4) == 1 && RoundHalfEven(1.6) == 2 && RoundHalfEven(7.0) == 7
  {
    assert (2.5).Floor == 2 && (3.5).Floor == 3 && (0.5).Floor == 0;
    assert (-0.5).Floor == -1 && (-1.5).Floor == -2;
    assert (1.4).Floor == 1 && (1.6).Floor == 1 && (7.0).Floor == 7;
  }

  /** The length is the clock at the last message rounded, so it is within
      half a unit of it, and with non-negative deltas it is not negative. */
  lemma LengthBounds(ms: seq<Msg>)
    requires Reconstruct(ms).Success?
    ensures var len := Reconstruct(ms).value.length;
      var c := Clock(ms[..|ms| - 1]);
      -0.5 <= len as real - c <= 0.5
      && (NonNegDeltas(ms) ==> len >= 0)
  {
    if NonNegDeltas(ms) {
      ClockMono(ms, |ms| - 1);
    }
  }

  /** A second `note_off` for the same pitch reuses the onset: the table
      entry is never removed. */
  lemma ReuseExample()
    ensures Reconstruct([NoteOn(60, 100, 0.0), NoteOff(60, 1.0), NoteOff(60, 2.0)])
      == Success(Timeline([NoteEvent(60, 100, 0.0, 1.0), NoteEvent(60, 100, 0.0, 3.0)], 1, None))
  {
    var a, b, c := NoteOn(60, 100, 0.0), NoteOff(60, 1.0), NoteOff(60, 2.0);
    var p1 := [a];
    var p2 := p1 + [b];
    var p3 := p2 + [c];
    var e1, e2 := NoteEvent(60, 100, 0.0, 1.0), NoteEvent(60, 100, 0.0, 3.0);
    assert [] + [a] == p1 && p1[..0] == [] && p2[..0] == [];
    NotesSnoc([], a, []);
    ClockSnoc([], a);
    assert LastOnset(p1, 60) == Some(0);
    assert ClosedNote(p1, b) == e1;
    NotesSnoc(p1, b, []);
    ClockSnoc(p1, b);
    assert [] + [e1] == [e1];
    assert LastOnset(p2, 60) == Some(0) by {
      assert p2[..1] == p1;
    }
    assert ClosedNote(p2, c) == e2;
    NotesSnoc(p2, c, [e1]);
    assert [e1] + [e2] == [e1, e2];
    FirstProgramIff(p3);
    assert p3 == [a, b, c] && p3[..2] == p2;
    assert RoundHalfEven(Clock(p2)) == 1 by {
      assert (1.0).Floor == 1;
    }
  }

  /** A second `note_on` for a pitch replaces the first one. */
  lemma OverwriteExample()
    ensures Reconstruct([NoteOn(60, 100, 1.0), NoteOn(60, 50, 2.0), NoteOff(60, 0.5)])
      == Success(Timeline([NoteEvent(60, 50, 1.0, 2.5)], 3, None))
  {
    var a, b, c := NoteOn(60, 100, 1.0), NoteOn(60, 50, 2.0), NoteOff(60, 0.5);
    var p1 := [a];
    var p2 := p1 + [b];
    var p3 := p2 + [c];
    var e := NoteEvent(60, 50, 1.0, 2.5);
    assert [] + [a] == p1 && p2[..1] == p1;
    NotesSnoc([], a, []);
    ClockSnoc([], a);
    NotesSnoc(p1, b, []);
    ClockSnoc(p1, b);
    assert LastOnset(p2, 60) == Some(1);
    assert ClosedNote(p2, c) == e;
    NotesSnoc(p2, c, []);
    assert [] + [e] == [e];
    FirstProgramIff(p3);
    assert p3 == [a, b, c] && p3[..2] == p2;
    assert RoundHalfEven(Clock(p2)) == 3 by {
      assert (3.0).Floor == 3;
    }
  }

  /** A `note_off` with no `note_on` before it stops the reconstruction. */
  lemma MissingExample()
    ensures Reconstruct([ProgramChange(5, 0.0), NoteOff(60, 1.0)]) == Failure(MissingOnset(1))
  {
    var a, b := ProgramChange(5, 0.0), NoteOff(60, 1.0);
    assert [] + [a] == [a] && [a] + [b] == [a, b];
    NotesSnoc([], a, []);
    assert LastOnset([a], 60) == None;
    NotesSnoc([a], b, []);
  }

  /** Two overlapping notes, each message one beat after the one before
      (the first at time 0): C on at 0, D on at 1, C off at 2, D off at 3. A
      MIDI delta is the time since the previous message, so these are the
      absolute times of the four messages. */
  function PairingStream(): seq<Msg>
  {
    [NoteOn(60, 100, 0.0), NoteOn(62, 90, 1.0), NoteOff(60, 1.0), NoteOff(62, 1.0)]
  }

  /** As written, D's `note_on` is stored at the clock before its own delta:
      D starts at 0, the time of C's `note_on`, although its own message is at
      1, and lasts 3 beats although its `note_off` is at 3. */
  lemma PairingAsWritten()
    ensures Notes(PairingStream())
      == Success([NoteEvent(60, 100, 0.0, 2.0), NoteEvent(62, 90, 0.0, 3.0)])
  {
    var ms := PairingStream();
    var a, b, c, d := ms[0], ms[1], ms[2], ms[3];
    var p1 := [a];
    var p2 := p1 + [b];
    var p3 := p2 + [c];
    var e1, e2 := NoteEvent(60, 100, 0.0, 2.0), NoteEvent(62, 90, 0.0, 3.0);
    assert [] + [a] == p1 && p1[..0] == [] && p2[..1] == p1 && p3[..2] == p2;
    NotesSnoc([], a, []);
    ClockSnoc([], a);
    NotesSnoc(p1, b, []);
    ClockSnoc(p1, b);
    assert LastOnset(p2, 60) == Some(0);
    assert ClosedNote(p2, c) == e1;
    NotesSnoc(p2, c, []);
    ClockSnoc(p2, c);
    assert [] + [e1] == [e1];
    assert LastOnset(p3, 62) == Some(1);
    assert ClosedNote(p3, d) == e2;
    NotesSnoc(p3, d, [e1]);
    assert [e1] + [e2] == [e1, e2];
    assert p3 + [d] == ms;
  }

  /** The note a `note_off` closes when the onset is stamped with the clock
      AFTER its own delta: start at the `note_on` itself, end at the
      `note_off`. */
  function OnsetNote(pre: seq<Msg>, off: Msg): NoteEvent
    requires off.NoteOff? && LastOnset(pre, off.note).Some?
  {
    var j := LastOnset(pre, off.note).value;
    NoteEvent(off.note, pre[j].velocity, Clock(pre[..j + 1]), Clock(pre) + off.time - Clock(pre[..j + 1]))
  }

  /** The reconstruction with onsets stamped at their own time. */
  function OnsetNotes(ms: seq<Msg>): Result<seq<NoteEvent>, ReconstructError>
  {
    if ms == [] then Success([])
    else
      var k := |ms| - 1;
      match OnsetNotes(ms[..k])
      case Failure(e) => Failure(e)
      case Success(notes) =>
        if !ms[k].NoteOff? then Success(notes)
        else if LastOnset(ms[..k], ms[k].note).None? then Failure(MissingOnset(k))
        else Success(notes + [OnsetNote(ms[..k], ms[k])])
  }

  /** For one `note_off`, the corrected note has the same pitch, velocity and
      end as the written one, and starts later by exactly the delta of its
      `note_on`. */
  lemma OnsetNoteShift(pre: seq<Msg>, off: Msg)
    requires off.NoteOff? && LastOnset(pre, off.note).Some?
    ensures var w, c := ClosedNote(pre, off), OnsetNote(pre, off);
      var j := LastOnset(pre, off.note).value;
      c.note == w.note && c.velocity == w.velocity
      && c.start == w.start + pre[j].time
      && c.start + c.duration == w.start + w.duration
  {
    var j := LastOnset(pre, off.note).value;
    assert pre[..j + 1][..j] == pre[..j];
  }

  /** The corrected reconstruction fails exactly where the written one does;
      otherwise it gives as many notes, with the same pitches, velocities and
      end times, each starting no earlier when deltas are non-negative. */
  lemma {:induction false} OnsetNotesAgree(ms: seq<Msg>)
    ensures OnsetNotes(ms).Failure? <==> Notes(ms).Failure?
    ensures OnsetNotes(ms).Failure? ==> OnsetNotes(ms).error == Notes(ms).error
    ensures OnsetNotes(ms).Success? ==>
      var c, w := OnsetNotes(ms).value, Notes(ms).value;
      |c| == |w|
      && forall i :: 0 <= i < |c| ==>
        c[i].note == w[i].note && c[i].velocity == w[i].velocity
        && c[i].start + c[i].duration == w[i].start + w[i].duration
        && (NonNegDeltas(ms) ==> c[i].start >= w[i].start)
  {
    if ms != [] {
      var pre := ms[..|ms| - 1];
      var last := ms[|ms| - 1];
      OnsetNotesAgree(pre);
      assert NonNegDeltas(ms) ==> NonNegDeltas(pre) by {
        assert forall k :: 0 <= k < |pre| ==> pre[k] == ms[k];
      }
      if OnsetNotes(pre).Success? && last.NoteOff? && LastOnset(pre, last.note).Some? {
        OnsetNoteShift(pre, last);
        var j := LastOnset(pre, last.note).value;
        assert pre[j] == ms[j];
      }
    }
  }

  /** `OnsetNotes` of a stream with one more message. */
  lemma OnsetNotesSnoc(pre: seq<Msg>, m: Msg, notes: seq<NoteEvent>)
    requires OnsetNotes(pre) == Success(notes)
    ensures OnsetNotes(pre + [m]) ==
      if !m.NoteOff? then Success(notes)
      else if LastOnset(pre, m.note).None? then Failure(MissingOnset(|pre|))
      else Success(notes + [OnsetNote(pre, m)])
  {
    assert (pre + [m])[..|pre|] == pre;
  }

  /** With onsets stamped at their own time, D starts at 1, the absolute
      time of its `note_on`, and lasts 2 beats, up to its `note_off` at 3. */
  lemma PairingCorrected()
    ensures OnsetNotes(PairingStream())
      == Success([NoteEvent(60, 100, 0.0, 2.0), NoteEvent(62, 90, 1.0, 2.0)])
  {
    var ms := PairingStream();
    var a, b, c, d := ms[0], ms[1], ms[2], ms[3];
    var p1 := [a];
    var p2 := p1 + [b];
    var p3 := p2 + [c];
    var e1, e2 := NoteEvent(60, 100, 0.0, 2.0), NoteEvent(62, 90, 1.0, 2.0);
    assert [] + [a] == p1 && p1[..0] == [] && p2[..1] == p1 && p3[..2] == p2;
    OnsetNotesSnoc([], a, []);
    ClockSnoc([], a);
    OnsetNotesSnoc(p1, b, []);
    ClockSnoc(p1, b);
    assert LastOnset(p2, 60) == Some(0);
    assert OnsetNote(p2, c) == e1;
    OnsetNotesSnoc(p2, c, []);
    ClockSnoc(p2, c);
    assert [] + [e1] == [e1];
    assert LastOnset(p3, 62) == Some(1);
    assert OnsetNote(p3, d) == e2;
    OnsetNotesSnoc(p3, d, [e1]);
    assert [e1] + [e2] == [e1, e2];
    assert p3 + [d] == ms;
  }
}
