# AbletonAssistant codec core in Dafny

This project models the note codec at the heart of AbletonAssistant's `api.py`. The codec sits between a MIDI-like timeline of note events and ABC text notation. The model covers six parts:

- **Event reconstruction** (`midifile_to_notes`): a stream of MIDI messages, each carrying a delta time, becomes a list of `(note, velocity, start, duration)` tuples, a rounded length and the first program number. Module `Midi`, file `midi.dfy`.
- **Pitch encoding** (`midi_note_to_abc_pitch`): a MIDI note number becomes an ABC pitch token. Module `Pitch`, file `pitch.dfy`.
- **Duration encoding** (`duration_to_abc_length`): a duration in beats becomes an ABC length token. Module `Duration`, file `duration.dfy`.
- **Clip to body text** (`notes_to_abc`): a flat note list, read five values at a time, becomes the space-separated ABC body. Any failure gives `""`. Module `Encoder`, file `encoder.dfy`.
- **Document wrapping** (`melody_to_abc`): two length rewrites, an X/T/M/L/K header and the repeat bars `|:` … `:|`, with every space deleted. Module `Document`, file `document.dfy`.
- **Reply clean-up** (`extract_message`): keep the first ```` ```abc ```` fence, drop blank lines, and delete commas inside each matched pair of double quotes. Module `Reply`, file `reply.dfy`.

Module `Text` (`text.dfy`) holds the shared pieces:

- `Option` and `Result`;
- Python's `str.replace` (`Replace`), character counting, repetition and ASCII case mapping.

The two loops of the source are methods proved against specification functions:

- `MidifileToNotes` is proved against `Reconstruct`. Its loop keeps the per-pitch onset table as a `map`.
- `NotesToAbc` is proved against `Body`, the tokens of the groups joined end to end.

The rest is pure and written as functions with lemmas.

Some Python behaviour is modelled explicitly:

- Python's `//` and `%` by 12 agree with Dafny's on every integer, because the divisor is positive.
- `round` is written out as round-half-to-even (`Midi.RoundHalfEven`).
- `str.strip() != ""` is written out with Python's whitespace set (`Reply.IsSpace`).
- The two regular expressions are written as explicit scans:
  - `Reply.SearchFence` finds the leftmost opening fence and the nearest closing fence after it;
  - `Reply.StripQuotedCommas` pairs quotes left to right.

Failures that the source raises become values, not preconditions:

- An empty message stream is `Failure(EmptyStream)`, because `t -= msg.time` reads an unbound name.
- A `note_off` with no earlier `note_on` is `Failure(MissingOnset(index))`, because the `assert` fails.
- In `notes_to_abc`, a missing list (`None`), a short last group and a non-integer pitch all lead to the `except` branch and give `""`.

Two behaviours of `midifile_to_notes` are modelled exactly as the code has them:

- **Onset stamp.** A MIDI delta is the time since the previous message, so a message's absolute time is the clock *after* its own delta is added. The `note_off` branch uses that time for the end (`t + msg.time`, api.py:27), but a `note_on` is stored with `t`, the clock *before* its own delta (api.py:18). On the stream `[note_on C t=0, note_on D t=1, note_off C t=1, note_off D t=1]` D therefore starts at 0, not at 1. See Findings.
- **Table entries.** A `note_off` never removes its pitch's entry from `note_ons`, so a second `note_off` for the same pitch reuses the old onset (`Midi.ReuseExample`).

## Model

| member | source | states |
|---|---|---|
| Midi.MidifileToNotes | api.py:10-38 | The loop over the messages returns exactly `Reconstruct(ms)`: the notes, `round` of the clock with the last delta rolled back, and the first program. It returns `EmptyStream` on an empty stream and `MissingOnset(i)` at the first unmatched `note_off`. |
| Midi.NotesStep | api.py:16-29 | One message extends the notes exactly as the loop body does. It uses the table entry of the latest `note_on` and fails when the pitch has no entry. |
| Midi.OnsetTableStep | api.py:16-18 | A `note_on` overwrites its pitch's entry with its velocity and the current clock. Every other message leaves the table as it is; in particular a `note_off` does not remove its entry. |
| Midi.FirstProgramSnoc | api.py:30-35 | Reading one more message sets the instrument only if none is set yet and the message is a `program_change`. |
| Midi.Notes | api.py:15-29 | A successful reconstruction yields exactly one tuple per `note_off`. A failure is `MissingOnset(k)` where message `k` is a `note_off` with no `note_on` for its pitch before it. |
| Midi.NotesSucceedIff | api.py:19-20 | The reconstruction succeeds iff every `note_off` has an earlier `note_on` for its pitch. Otherwise the failure is `MissingOnset(k)`, where `k` is a `note_off` with no earlier onset and every `note_off` before `k` is matched. |
| Midi.NotesPrefix | api.py:15-29 | The notes of a prefix of the stream are a prefix of the notes, so tuples are appended in `note_off` order. |
| Midi.NoteOfOff | api.py:19-29 | The `note_off` at index `k` gives the tuple at position "number of earlier `note_off`s". Its note is the off's note and its velocity is that of the latest earlier `note_on` `j`. Its start is the clock before `j`. Its duration is the clock after `k` minus that start. |
| Midi.NotesBounds | api.py:21-29 | With non-negative deltas every note has start ≥ 0 and duration ≥ 0, and ends no later than the final clock. |
| Midi.ClockMono | api.py:36 | With non-negative deltas the running clock never decreases and stays ≥ 0. |
| Midi.FirstProgramIff | api.py:30-35 | The instrument is `None` iff there is no `program_change`. Otherwise it is the program of the first one. |
| Midi.FirstProgramWins | api.py:31-35 | Once a program is set, later `program_change` messages do not change it. |
| Midi.Reconstruct | api.py:10-38 | The function succeeds iff the stream is non-empty and every `note_off` has an earlier `note_on` for its pitch. An empty stream fails with `EmptyStream`. A success holds one note per `note_off`. |
| Midi.RoundHalfEven | api.py:38 | Python's `round`: the result is within 0.5 of the input, and a tie goes to the even integer. |
| Midi.RoundExamples | api.py:38 | 2.5→2, 3.5→4, 0.5→0, -0.5→0, -1.5→-2, 1.4→1, 1.6→2, 7.0→7. |
| Midi.LengthBounds | api.py:36-38 | The length is within 0.5 of the clock at the last message, whose delta is rolled back. With non-negative deltas it is ≥ 0. |
| Midi.ReuseExample | api.py:17-29 | Two `note_off`s after one `note_on` both use that onset: (60,100,0,1) and (60,100,0,3), with length 1 and no instrument. |
| Midi.OverwriteExample | api.py:16-18 | A second `note_on` for a pitch replaces the first: the `note_off` yields (60,50,1,2.5) and the length is 3. |
| Midi.MissingExample | api.py:19-20 | A `note_off` with no `note_on` before it fails at its index. |
| Midi.PairingAsWritten | api.py:16-29 | As written, `PairingStream` (C on at 0, D on at 1, C off at 2, D off at 3, as absolute times) gives C (start 0, duration 2) and D (start 0, duration 3). |
| Midi.OnsetNotesAgree | api.py:16-29 | Compared with the as-written result, onsets stamped at their own time fail in the same cases and give the same number of notes. The notes have the same pitches, velocities and end times, and with non-negative deltas none starts earlier. |
| Midi.OnsetNoteShift | api.py:18-27 | For one note, the corrected start is the written start plus the `note_on`'s own delta, and the end is unchanged. |
| Midi.PairingCorrected | api.py:16-29 | With onsets stamped at their own time, `PairingStream` gives C (start 0, duration 2) and D (start 1, duration 2). |
| Pitch.AbcPitch | api.py:113-123 | Every integer note gets a token that is non-empty and holds no space. |
| Pitch.PitchCommas | api.py:117-118 | The number of commas is `4 - octave` below octave 5 and 0 otherwise. |
| Pitch.PitchApostrophes | api.py:119-120 | The number of apostrophes is `octave - 5` above octave 5 and 0 otherwise. |
| Pitch.PitchName | api.py:114-122 | Without its markers, the token is the table name `note_names[n % 12]`, sharp `^` included. It is lower-case up to octave 5. |
| Pitch.PitchClassRecovered | api.py:114-116 | The pitch class `n % 12` can be read back from every token. |
| Pitch.RegisterRecovered | api.py:117-122 | The octave can be read back from every token, except that octave 5 reads as 4. |
| Pitch.PitchNotInjective | api.py:117-122 | For 60 ≤ p ≤ 71, p and p + 12 give the same token. |
| Pitch.PitchInjectiveElsewhere | api.py:113-123 | Two notes with equal tokens are equal or are exactly that octave-4/octave-5 pair. |
| Pitch.PitchExamples | api.py:113-123 | 60→`c`, 72→`c`, 48→`c,`, 0→`c,,,,,`, 84→`C'`, 61→`^c`, 97→`^C''`. |
| Duration.AbcLength | api.py:125-143 | The token holds no space. It is empty iff the duration is not one of the seven table values and is below 4. |
| Duration.LengthWholeNotes | api.py:140-141 | A duration ≥ 4 gives a non-empty decimal digit string whose value is `floor(d / 4)`, which is ≥ 1. |
| Duration.NatToStringValue | api.py:141 | Python's `str(n)` on a natural number reads back as `n`. |
| Duration.NatToStringInjective | api.py:141 | Distinct whole-note counts get distinct tokens. |
| Duration.LengthExamples | api.py:126-143 | The seven table entries, 4→`1`, 7→`1`, 8→`2`, 40→`10`, and `""` for 0.33, -1 and 3.5. |
| Encoder.NotesToAbc | api.py:171-181 | The loop returns the full body when the list exists, splits into whole groups of five and every group's pitch is an integer. Otherwise it returns exactly `""`, never a partial string. |
| Encoder.Body | api.py:171-181 | The body of an encodable list holds exactly one space per note. A non-empty body ends with a space. |
| Encoder.TokenSeparated | api.py:176-178 | Each note's token `pitch + length + " "` holds exactly one space, as its last character. |
| Encoder.ConcatStep | api.py:174-178 | One more group of five adds its own token at the end of what the earlier groups produced: the loop's `+=`. |
| Encoder.BodyOrder | api.py:174-178 | Tokens come in list order: in the body, the token of group `k` comes right after the tokens of the groups before it. |
| Encoder.BodyExample | api.py:171-179 | `[60,0,0.25,100,0, 36,1,8,90,0]` gives `c/4 c,,2 `. |
| Document.RewriteRemovesOnes | api.py:159 | After the two rewrites the body holds no `1`. |
| Document.MelodyToAbc | api.py:144-170 | The document holds no space and ends with `:|`. Every `1` in it comes from the header, since the rewritten body holds none. |
| Document.DocumentShape | api.py:159-168 | The document is the header with spaces removed, then `|:`, the rewritten body with spaces removed, and `:|`. It holds no space, its body holds no `1`, and it ends with `:|`. |
| Document.EmptyMelodyDocument | api.py:159-168 | An empty melody gives the header with its spaces removed, followed by `|::|`. |
| Document.DocumentExample | api.py:159-168 | For note letters `x` and `y`, the body `x1 y/2 ` becomes the header with its spaces removed, followed by `|:x8y2:|`. |
| Reply.FindFrom | api.py:71 | The first occurrence of a pattern at or after a position, or none. |
| Reply.SearchFence | api.py:71 | The captured text lies after the leftmost opening fence that has a closing fence after it, and ends at the nearest closing fence. If there is none, no opening fence is followed by a closing fence. |
| Reply.FenceBody | api.py:71-76 | The kept text is no longer than the reply. It is the whole reply iff no opening fence in it is followed by a closing fence. |
| Reply.FenceBodyFenced | api.py:71-74 | A reply `pre` + opening fence + `body` + closing fence + `post` is cut down to exactly `body` when no opening fence starts inside `pre` and no closing fence starts inside `body`. |
| Reply.JoinSplit | api.py:77 | Joining the split lines with newlines gives back the text. |
| Reply.SplitJoin | api.py:77 | For a non-empty list of lines none of which holds a newline, splitting their newline join gives back the lines. |
| Reply.KeepNonBlank | api.py:77 | The kept lines are exactly the non-blank input lines: every kept line is a non-blank input line, and every non-blank input line is kept. |
| Reply.KeepNonBlankConcat | api.py:77 | The filter works line by line: filtering a concatenation is the concatenation of the filtered parts, so kept lines keep their order. |
| Reply.KeepNonBlankSingle | api.py:77 | A single line is dropped iff it is blank. |
| Reply.DropBlankLines | api.py:77 | The result is empty, or none of its lines is blank. |
| Reply.DropBlankLinesLines | api.py:77 | After dropping, the lines of the text are exactly the non-blank input lines in order. The text is empty when every line was blank. |
| Reply.DropBlankLinesKeeps | api.py:77 | A text with no blank line is unchanged. |
| Reply.StripQuotedCommas | api.py:79-82 | The result is the input with exactly the commas that lie between a quote and its partner removed: position by position, a character is dropped iff it is a comma with an odd number of quotes before it and a quote after it. |
| Reply.QuotePair | api.py:79-82 | A matched pair splits the text into a quote-free prefix, the quotes, a quote-free inside, and the rest. |
| Reply.StripOnlyCommas | api.py:79-82 | Only commas are deleted: after removing every comma, the input and the output are the same text. |
| Reply.StripKeepsQuotes | api.py:79-82 | The number of `"` characters is unchanged. |
| Reply.StripLeavesNoQuotedComma | api.py:79-82 | No comma is left between a quote and its partner. |
| Reply.StripNoQuotes | api.py:79-82 | A text with no quote is unchanged. |
| Reply.ExtractPlain | api.py:70-84 | A reply in which no opening fence is followed by a closing fence, with no quote and no blank line, is returned unchanged. |
| Reply.ExtractFenced | api.py:70-84 | Under the conditions of `FenceBodyFenced`, the reply yields its fenced text with blank lines dropped and quoted commas deleted. |
| Reply.ExtractMessage | api.py:70-84 | Whatever the reply, no comma is left between a quote and its partner in the result. |

## Left out

- Parsing a MIDI file with mido is not modelled. The messages are given as a sequence of the `Midi.Msg` datatype, and only `note_on`, `note_off` and `program_change` are told apart.
- Times and durations are exact reals. IEEE floating-point rounding of sums and of the equality tests in `duration_to_abc_length` is not modelled.
- `print` side effects are not modelled.
- `get_completion` is not part of this model (network), nor are `make_midi` (file write) and `parse_file` (process call).
- The `API` class is not part of this model: OSC queries, clip insertion, transport, tempo, `generate`. This also covers its duplicate `midifile_to_notes` without `self`, which is never called. `notes_to_abc` receives the result of `get_notes` as a parameter (`None` included).
- `main.py` (web routes) is not part of this model.
- The default argument values of `melody_to_abc` (title, meter, default length, key) are not modelled: `Document.MelodyToAbc` takes all five arguments explicitly.
- `Text.Lower` and `Text.Upper` map ASCII letters only. That is enough for the twelve note names; Python's full Unicode case mapping is not modelled.
- `Encoder.NotesToAbc` models the pitch as an integer or not. A Python `bool` or a non-numeric duration is not modelled.
- There is no ABC decoder and no encode/decode round trip, because the source has none. `Pitch.RegisterOf` and `Pitch.PitchClassOf` exist only to state what a token determines.
- `Midi.MidifileToNotes` follows the source as written, with the onset stamped before its own delta. The corrected stamping (`Midi.OnsetNotes`) is stated and proved beside it, not substituted into the method.

## Findings

| source | as written | input that shows it | evidently intended | confidence | as-written member | corrected member |
|---|---|---|---|---|---|---|
| api.py:18 | A `note_on` is stored with `t`, the clock before its own delta is added, while the `note_off` adds its own delta (api.py:27). The start is therefore the time of the previous message, and the duration absorbs the onset's delta. | `[note_on C t=0, note_on D t=1, note_off C t=1, note_off D t=1]` gives D start 0, duration 3 | D start 1, duration 2: the onset stamped at `t + msg.time`, with the same end | not executed; medium | Midi.PairingAsWritten | Midi.OnsetNotesAgree |
