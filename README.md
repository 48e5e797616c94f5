# Machina's Standard MIDI File reader and fitness-problem state, in Dafny

Machina evolves note-generating machines towards a target MIDI file. This
project models two pieces of its engine.

**The Standard MIDI File reader (`SMFReader`).** It opens a file, checks the
"MThd" tag and reads the header fields. It then walks the chunk chain to the
n-th "MTrk" track and reads events one at a time. Each event is a
variable-length delta time, a status byte (or running status) and its data
bytes. Meta events either end the track (type 0x2F) or are skipped. Events
of unknown length, and events that do not fit the caller's buffer, are
skipped by their length. A note-on with velocity 0 is handed out as a
note-off with velocity 0x40.

The open file is modelled as its bytes (`seq<byte>`) plus a cursor, and the
end-of-file test as "cursor at or past the end". Modules:

- `MidiBytes`: byte widths and big-endian fields.
- `MidiStatus`: the `midi_event_size` table.
- `Vlq`: `read_var_len`.
- `SmfDecode`: the header and the chunk scan, as functions.
- `SmfEvent`: one `read_event` call, as a function.
- `Reader`: the reader object. Its methods are proved to do what those
  functions say.

**The running status.** It lives in two function-level statics of
`read_event`. It is therefore shared by all readers and is not reset by
`open` or `close`. Here it is a separate `RunningStatus` object that every
`ReadEvent` call receives and updates, and that `Open` has no access to.

**The fitness problem (`Problem`).** Module `FitnessProblem` holds:

- the pattern evaluator of the target (order 4, 128 zeroed counts, no
  patterns);
- the seed slot;
- the fitness memo keyed by machine identity;
- the minimising order on fitness values.

Module `Levenshtein` gives the edit distance that `distance` computes.

Three behaviours of the source are kept as written:

- The channel mask of `midi_event_size` covers only 0x80..0xE0. Pitch-bend
  statuses 0xE1..0xEF therefore have unknown length. `read_event` then skips
  0xFFFFFFFF bytes, since the unsigned `0 - 1` wraps. This assumes a 64-bit
  `long` (LP64), the type of `fseek`'s offset; with a 32-bit `long` the
  conversion is implementation-defined and typically gives -1, a step one
  byte back.
- A file without the "MThd" tag makes `open` return false. It raises no
  format error; the model follows the code.
- Every status from 0x80 up becomes the running status, meta (0xFF) and
  sysex (0xF0) included, although the Standard MIDI File format says meta
  and sysex events cancel running status. After a meta event, a data byte
  in status position is therefore read as the type byte of another meta
  event: `00 FF 01 00` then `00 3C 02 …` is skipped, and then skipped once
  more past 2 payload bytes.

## Model

| member | source | states |
|---|---|---|
| MidiBytes.Be16RoundTrip | machina/src/engine/SMFReader.cpp:117-131 | a 16-bit field stored big-endian is read back by the GUINT16_FROM_BE read |
| MidiBytes.Be32RoundTrip | machina/src/engine/SMFReader.cpp:176-178 | a 32-bit chunk length stored big-endian is read back |
| MidiStatus.MidiEventSize | machina/src/engine/SMFReader.cpp:35-71 | the length, not counting the status byte, is always -1, 0, 1 or 2 |
| MidiStatus.EventSizeTable | machina/src/engine/SMFReader.cpp:35-71 | exactly which statuses give 2 (note, pressure, controller, 0xE0, song position), 1 (program, channel pressure, MTC, song select), 0 (tune request and realtime) and -1 (data bytes, sysex, undefined, 0xE1..0xEF) |
| MidiStatus.ChannelIgnored | machina/src/engine/SMFReader.cpp:38-40 | for statuses in 0x80..0xE0 the length depends only on the high nibble |
| MidiStatus.BenderAboveFirstChannelUnknown | machina/src/engine/SMFReader.cpp:38-40 | the mask stops at 0xE0, so 0xE1..0xEF are of unknown length |
| Vlq.VarLen | machina/src/engine/SMFReader.cpp:303-324 | the only failure is PrematureEOF; a success ends after the cursor and within the file |
| Vlq.ReadVarLen | machina/src/engine/SMFReader.cpp:303-324 | the loop returns exactly VarLen: the value with 32-bit wrap-around of `value << 7` and the cursor after the last byte, or PrematureEOF |
| Vlq.Shape | machina/src/engine/SMFReader.cpp:313-320 | a quantity read ends at its first byte below 0x80; every byte before it has the top bit set |
| Vlq.RoundTrip | machina/src/engine/SMFReader.cpp:303-324 | decoding the encoding of any 32-bit value gives the value back and moves the cursor by exactly the encoding's length |
| Vlq.RoundTripPrefix | machina/src/engine/SMFReader.cpp:303-324 | the same round trip at the start of any byte sequence |
| Vlq.EncodeLength | machina/src/engine/SMFReader.cpp:303-324 | values below 2^28 take at most 4 bytes, any 32-bit value at most 5 |
| Vlq.FailsIff | machina/src/engine/SMFReader.cpp:306-320 | PrematureEOF exactly when no byte from the cursor to the end has its top bit clear, the empty rest included |
| Vlq.Shift | machina/src/engine/SMFReader.cpp:303-324 | the result depends only on the bytes from the cursor on: same outcome, same value and same advance |
| SmfDecode.ReadHeader | machina/src/engine/SMFReader.cpp:104-131 | a header is read exactly when bytes 0..3 are "MThd"; the fields are then the big-endian values at 8, 10 and 12 |
| SmfDecode.HeaderRoundTrip | machina/src/engine/SMFReader.cpp:117-131 | a well-formed header chunk followed by anything reads back as its fields, with the cursor at byte 14 |
| SmfDecode.ScanChunks | machina/src/engine/SMFReader.cpp:160-193 | the scan finds a track only with its first data byte inside the file, and otherwise stops at or past the end |
| SmfDecode.TrackHeaders | machina/src/engine/SMFReader.cpp:167-185 | reference list of the track headers on the chunk chain, each at or after the starting chunk and inside the file |
| SmfDecode.TrackHeadersInOrder | machina/src/engine/SMFReader.cpp:167-185 | the track headers on the chunk chain are met in file order: their offsets strictly increase |
| SmfDecode.ScanFindsNthTrack | machina/src/engine/SMFReader.cpp:160-193 | from any chunk with k tracks already counted, the scan finds its target exactly when the chain holds the remaining tracks and that header ends before the end of the file; it then gives that chunk's length and first data byte |
| SmfDecode.SeekFindsNthTrack | machina/src/engine/SMFReader.cpp:160-193 | seeking track n from byte 14 succeeds exactly when the n-th MTrk header exists and is complete; only MTrk chunks are counted and every chunk is skipped by its length |
| SmfEvent.SkipOffset | machina/src/engine/SMFReader.cpp:274 | the skip is `ev_size - 1`, and 0xFFFFFFFF for an unknown length (32-bit wrap) |
| SmfEvent.Normalize | machina/src/engine/SMFReader.cpp:284-287 | the buffer keeps its size |
| SmfEvent.NormalizeEffect | machina/src/engine/SMFReader.cpp:284-287 | a note-on with velocity 0 becomes a note-off on the same channel with velocity 0x40, and no other byte changes; any other buffer is unchanged |
| SmfEvent.CopyData | machina/src/engine/SMFReader.cpp:282 | the buffer keeps its size and its status byte |
| SmfEvent.DecodeBody | machina/src/engine/SMFReader.cpp:254-290 | the buffer keeps its size and the cursor never moves back; a produced event has the length in force, fits the buffer and is reported in `*ev_size` |
| SmfEvent.DecodeEvent | machina/src/engine/SMFReader.cpp:209-291 | the running status stays valid, the buffer keeps its size, the cursor never moves back; a produced event is 1 to 3 bytes long, fits the buffer and is reported in `*ev_size` |
| SmfEvent.NotReadable | machina/src/engine/SMFReader.cpp:216-222 | no track selected: logic_error; closed file or end of file: -1; nothing is touched |
| SmfEvent.DeltaTimeUnfinished | machina/src/engine/SMFReader.cpp:233 | an unfinished delta time raises PrematureEOF with the cursor at the end and `*delta_time` untouched |
| SmfEvent.StatusMissing | machina/src/engine/SMFReader.cpp:233-236 | end of file after the delta time: PrematureEOF, with the delta time already stored |
| SmfEvent.RunningStatusWithoutPrior | machina/src/engine/SMFReader.cpp:241-244 | a data byte in status position with no status seen before: CorruptFile |
| SmfEvent.DeltaTimeReported | machina/src/engine/SMFReader.cpp:233 | every call that returns normally has stored the delta time it read |
| SmfEvent.ExplicitStatus | machina/src/engine/SMFReader.cpp:248-252 | a status byte becomes the running status, paired with its table length plus one |
| SmfEvent.ImplicitStatus | machina/src/engine/SMFReader.cpp:241-247 | under running status the stored status and length are used and the cursor steps back onto the data byte |
| SmfEvent.MetaBody | machina/src/engine/SMFReader.cpp:256-270 | a meta body of type 0x2F ends the track after its length field; any other type is skipped past its payload; `*ev_size` is 0 |
| SmfEvent.MetaEndOfTrack | machina/src/engine/SMFReader.cpp:256-266 | the end-of-track meta event returns -1, stores `*ev_size` 0, writes only `buf[0]` and sets the running status to 0xFF |
| SmfEvent.MetaSkipped | machina/src/engine/SMFReader.cpp:256-269 | any other meta event returns 0 with the cursor just past its payload |
| SmfEvent.CopyInFile | machina/src/engine/SMFReader.cpp:282 | with all data bytes in the file, the buffer is the status, the data bytes, then the rest of the old buffer |
| SmfEvent.ProducedBody | machina/src/engine/SMFReader.cpp:276-290 | an event of known length that fits the buffer is copied in, normalised and its length returned |
| SmfEvent.EventProduced | machina/src/engine/SMFReader.cpp:248-290 | an explicit-status event that fits is produced: the length is returned and stored, the data bytes are copied, the rest of the buffer is kept and the cursor is at the next delta time |
| SmfEvent.OversizedEventSkipped | machina/src/engine/SMFReader.cpp:272-275 | an event longer than the buffer returns 0 with its real length in `*ev_size`, and the cursor is at the next delta time |
| SmfEvent.UnknownLengthSkipped | machina/src/engine/SMFReader.cpp:272-275 | an event of unknown length returns 0 with `*ev_size` 0 and seeks 0xFFFFFFFF bytes on |
| SmfEvent.EncodedEventRoundTrip | machina/src/engine/SMFReader.cpp:209-291 | an event written as delta time, status and data bytes is read back with that delta time, status, data and length |
| SmfEvent.RunningStatusProduced | machina/src/engine/SMFReader.cpp:241-290 | an event under running status is produced with the stored status in `buf[0]`, as if the status byte were present, and the running status is unchanged |
| SmfEvent.NoteOnZeroIsNoteOff | machina/src/engine/SMFReader.cpp:284-287 | a note-on with velocity 0 is returned as note-off, same channel and note, velocity 0x40, while the running status keeps the note-on byte |
| Reader.RunningStatus.constructor | machina/src/engine/SMFReader.cpp:229-231 | the running status starts with no status and length 0 |
| Reader.SmfReader.constructor | machina/src/engine/SMFReader.cpp:73-82 | no file open, ppqn, track and track size 0 |
| Reader.SmfReader.Open | machina/src/engine/SMFReader.cpp:91-144 | logic_error when already open; false when the file cannot be opened, or when the tag is not "MThd" (the file is then closed); otherwise the header fields are stored, SMPTE division raises UnsupportedTime with the file left open, and else track 1 is sought and true returned |
| Reader.SmfReader.SeekToTrack | machina/src/engine/SMFReader.cpp:149-194 | logic_error for track 0 or a closed file; otherwise the loop computes ScanChunks from byte 14, selects the track and its length when found, and leaves both as they were when not |
| Reader.SmfReader.ReadEvent | machina/src/engine/SMFReader.cpp:209-291 | the call reports exactly what DecodeEvent computes from the state before it: result or exception, `*ev_size`, `*delta_time`, cursor, running status and buffer |
| Reader.SmfReader.ReadDelta | machina/src/engine/SMFReader.cpp:233-239 | the same, from the delta time on |
| Reader.SmfReader.ReadStatus | machina/src/engine/SMFReader.cpp:234-254 | the same, from the status byte on |
| Reader.SmfReader.ReadBody | machina/src/engine/SMFReader.cpp:254-290 | the rest of the call does what DecodeBody computes |
| Reader.SmfReader.ReadMeta | machina/src/engine/SMFReader.cpp:256-270 | a meta body does what DecodeBody computes for status 0xFF |
| Reader.SmfReader.CopyIn | machina/src/engine/SMFReader.cpp:282 | the copy loop leaves the buffer as CopyData gives it |
| Reader.SmfReader.NormalizeIn | machina/src/engine/SMFReader.cpp:284-287 | the in-place rewrite leaves the buffer as Normalize gives it |
| Reader.SmfReader.Close | machina/src/engine/SMFReader.cpp:293-301 | the reader is closed whatever its state, so closing twice is the same as once, and nothing else changes |
| Levenshtein.Distance | machina/src/engine/Problem.hpp:53-54 | the recursive Levenshtein distance over byte sequences: the fewest single-byte insertions, deletions and substitutions, the definition the four Distance lemmas are about |
| Levenshtein.DistanceSelf | machina/src/engine/Problem.hpp:126-127 | a sequence is at distance 0 from itself |
| Levenshtein.DistanceSymmetric | machina/src/engine/Problem.hpp:53-54 | the distance is symmetric |
| Levenshtein.DistanceBounds | machina/src/engine/Problem.hpp:53-54 | the distance lies between the difference of the lengths and the longer length |
| Levenshtein.DistanceZeroIff | machina/src/engine/Problem.hpp:53-54 | the distance is 0 exactly when the sequences are equal |
| FitnessProblem.Evaluator.constructor | machina/src/engine/Problem.hpp:92-118 | order 4, empty read string, empty pattern map, all 128 counts zero, `n_notes()` 0, `first_note()` 0 |
| FitnessProblem.FitnessLessThan | machina/src/engine/Problem.hpp:43 | a is fitter than b exactly when a < b: the problem minimises |
| FitnessProblem.FitnessOrderIsStrict | machina/src/engine/Problem.hpp:43 | the less-than on fitness values is irreflexive, asymmetric, transitive and total on distinct values |
| FitnessProblem.Problem.constructor | machina/src/engine/Problem.hpp:34-36 | a problem over the given target and seed, with an empty memo and an empty matrix |
| FitnessProblem.Problem.Seed | machina/src/engine/Problem.hpp:39 | the seed slot holds the new parent; nothing else changes |
| FitnessProblem.Problem.ClearFitnessCache | machina/src/engine/Problem.hpp:45 | the memo is empty afterwards; nothing else changes |

## Left out

- File I/O (`fopen`, `fseek`, `fread`, `fgetc`, `fclose`): a file is its bytes and a cursor. A file that cannot be opened is `None`. The file name and the `"r+"` mode are not modelled.
- The console output of `open` and `seek_to_track` (SMFReader.cpp:100, 111, 173).
- The end-of-file test. It is modelled as "cursor at or past the end", but C's `feof` becomes true only after a read fails, and `fseek` clears it. On files that end exactly at a field boundary, or where a seek goes to or past the end, the model therefore differs from the code:
  - A track whose header ends exactly at the end of the file is found by the code but not by the model (`SmfDecode.ScanChunks`).
  - At the exact end of a track without an end-of-track event, the code's `read_event` goes on into `read_var_len` and raises PrematureEOF, while the model returns -1.
  - After a chunk length that seeks past the end, the code's scan may loop on, while the model's scan stops.
  - When the chunk chain ends exactly at the end of the file on a chunk that is not a track, before the target track is reached (for example seeking one track beyond the last on a file whose last chunk is not a track), the code's scan never stops: the stale id never reads "MTrk" and every `fseek` clears the end-of-file flag. The model's scan returns not found.
  - When a chunk header is cut short at the end of the file (for example the 14 header bytes followed by `58 58`), the short id read sets the end-of-file flag, the length read fails, and the `fseek` by the unset length at SMFReader.cpp:184 clears the flag again, so the code's scan never stops. The model's scan returns not found at once.
  - On a file that starts with "MThd" but is shorter than 14 bytes, `open`'s `seek_to_track(1)` compares an id that was never written, and the code may likewise loop. The model's scan returns not found at once.
  - An explicit status byte that is the last byte of the file: in the code `feof` at SMFReader.cpp:272 is still false (the status was read), so the event is read. `00 F8` returns 1, and `00 90` returns 3 (with a buffer of at least 3 bytes) with `buf[1]` and `buf[2]` stale. The normalisation at SMFReader.cpp:284-287 still applies to them, so a stale `buf[2]` of 0 yields `80 xx 40`. The model's `DecodeBody` sees the cursor at the end and skips the event (`SmfEvent.EventProduced` and `SmfEvent.EncodedEventRoundTrip` state nothing about this input).
  - After any skip that seeks to or past the end — an oversized event or a meta payload that runs off the file, and always after the 0xFFFFFFFF skip of an event of unknown length (every status of length -1 in `MidiStatus.EventSizeTable`: sysex 0xF0, the sysex escape 0xF7, the undefined 0xF4, 0xF5, 0xF9 and 0xFD, and every pitch bend on channels 2-16) — `fseek` clears the end-of-file flag. The code's next `read_event` passes the test at SMFReader.cpp:220, `read_var_len` fails, and PrematureEOF is raised. The model's next call returns -1.
- Short reads of chunk ids and lengths. A field read past the end counts its missing bytes as 0. The code would compare stale bytes of the previous id (or, on the first read, an id never written), but the model's scan ends there anyway; what the code then does is listed under the end-of-file test above.
- `ferror` (SMFReader.cpp:278) is never true.
- An `fgetc` value above 0xFF (SMFReader.cpp:237) cannot occur.
- The `assert`s of `read_event` on `buf_len > 0` and non-null pointers become preconditions.
- The constructor that takes a file name is the plain `constructor` followed by `Open`. The destructor is `Close`.
- `_type` and `_num_tracks` are left uninitialised by the code's constructor; here they start at 0.
- The file position is an unbounded `nat`. The code's `long` offsets never overflow on real files.
- Reader.SmfReader.Open: when the tag check fails, the postcondition does not say what becomes of `data` and `pos`, because the reader is then closed and neither is used again before the next `Open`.
- Reader.SmfReader.ReadEvent: requires a running status that the reader itself could have stored (`Valid`). The initial state satisfies it, and every call keeps it.
- `Problem::evaluate`, `initial_population`, `Evaluator::write_event` and `compute`: their bodies are not part of this model, and neither are `Machine`, `eugene::Random` and `TimeUnit`. Machines appear only by identity.
- `Problem::distance`: its matrix-based body is not part of this model either. The distance is given by its recursive definition. The 16-bit matrix cells and the triangle inequality are not covered.
- The `Problem` constructor's body is not part of this model. The modelled constructor stores the target and the seed and starts with an empty memo and matrix.
- Fitness values are `real`, so NaN and other floating-point behaviour are not modelled.
- The `Evaluator`'s back reference to its `Problem` is omitted.
- Thread safety of the `mutable` memo and matrix.
- `n_notes()` and `first_note()` are read-only functions that return their fields. They have no contract of their own and are used in the `Evaluator` constructor's postcondition.
