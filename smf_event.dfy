/** One call of `read_event` as a function of the file bytes, the cursor, the
    running-status state and the caller's buffer. */
module SmfEvent {
  import opened MidiBytes
  import opened Outcomes
  import opened MidiStatus
  import opened Vlq

  /** The running-status state: the last status byte seen and the event length
      (status byte included) that went with it; `Running(0, 0)` before any. */
  datatype Running = Running(lastStatus: byte, lastSize: uint32)

  const NO_RUNNING_STATUS := Running(0, 0)

  /** The state is either the initial one, or a status byte paired with the
      length the table gives it: the reader only ever stores such pairs. */
  predicate ValidRunning(rs: Running)
  {
    rs == NO_RUNNING_STATUS || (rs.lastStatus >= 0x80 && rs.lastSize == MidiEventSize(rs.lastStatus) + 1)
  }

  /** The three kinds of return value: the event length (>= 1), 0 for a
      skipped event, -1 for the end of the track. */
  datatype EventOutcome = Produced(size: nat) | Skipped | EndOfTrack

  /** The C return value of an outcome. */
  function ReturnCode(o: EventOutcome): int
  {
    match o
    case Produced(n) => n
    case Skipped => 0
    case EndOfTrack => -1
  }

  /** Everything one call leaves behind: what it returns or throws, the new
      cursor, the new running status, what it stored in `*ev_size` and
      `*delta_time` (None: left untouched) and the caller's buffer. */
  datatype Step = Step(result: Result<EventOutcome>, pos: nat, running: Running,
                       evSize: Option<uint32>, deltaTime: Option<uint32>, buf: seq<byte>)

  const META: byte := 0xFF
  const END_OF_TRACK: byte := 0x2F

  /** The seek that skips an event's data bytes: `*ev_size - 1` in 32-bit
      unsigned arithmetic, so an unknown length (0) seeks 0xFFFFFFFF bytes on.
      The offset is passed to `fseek` as a `long`; the model assumes a 64-bit
      `long` (LP64), where the value is kept as it is. */
  function SkipOffset(evSize: uint32): (n: nat)
    ensures evSize >= 1 ==> n == evSize - 1
    ensures evSize == 0 ==> n == 0xFFFF_FFFF
  {
    (evSize - 1) % UINT32_MODULUS
  }

  /** A note-on message (any channel) whose velocity byte is 0. */
  predicate IsNoteOnZero(b: seq<byte>)
  {
    |b| >= 3 && b[0] / 0x10 == 9 && b[2] == 0
  }

  /** Rewrites a note-on with velocity 0 into the note-off with velocity 0x40 on
      the same channel; any other buffer is left as it is. */
  function Normalize(b: seq<byte>): (r: seq<byte>)
    requires |b| > 0
    requires b[0] / 0x10 == 9 ==> |b| >= 3
    ensures |r| == |b|
  {
    if b[0] / 0x10 == 9 && b[2] == 0 then b[0 := 0x80 + b[0] % 0x10][2 := 0x40] else b
  }

  /** Exactly bytes 0 and 2 change, and only for a note-on with velocity 0. */
  lemma NormalizeEffect(b: seq<byte>)
    requires |b| > 0 && (b[0] / 0x10 == 9 ==> |b| >= 3)
    ensures IsNoteOnZero(b) ==>
      Normalize(b)[0] == 0x80 + b[0] % 0x10 && Normalize(b)[2] == 0x40
      && Normalize(b)[0] / 0x10 == 8 && Normalize(b)[0] % 0x10 == b[0] % 0x10
      && forall i :: 0 <= i < |b| && i != 0 && i != 2 ==> Normalize(b)[i] == b[i]
    ensures !IsNoteOnZero(b) ==> Normalize(b) == b
  {
  }

  /** `fread(buf + 1, 1, n)`: the data bytes after the cursor are copied in
      after the status byte, as many as the file still holds. */
  function CopyData(buf: seq<byte>, data: seq<byte>, p: nat, n: nat): (r: seq<byte>)
    requires 1 + n <= |buf| && p <= |data|
    ensures |r| == |buf| && r[0] == buf[0]
  {
    var avail := Min(n, |data| - p);
    buf[..1] + data[p..p + avail] + buf[1 + avail..]
  }

  /** The part of `read_event` after the status is known: the cursor `p` is at
      the first byte after the status (or back on the data byte, under running
      status), `status` and `evSize` are the status and length in force. */
  function DecodeBody(data: seq<byte>, p: nat, rs: Running, status: byte, evSize: uint32,
                      delta: uint32, bufLen: nat, buf: seq<byte>): (r: Step)
    requires 0 < bufLen <= |buf| && p <= |data|
    requires status >= 0x80 && evSize == MidiEventSize(status) + 1
    ensures |r.buf| == |buf| && r.pos >= p
    ensures r.result.Ok? && r.result.value.Produced? ==>
      r.result.value.size == evSize && 1 <= evSize <= bufLen && r.evSize == Some(evSize)
  {
    var buf1 := buf[0 := status];
    if status == META then
      if p >= |data| then Step(Err(PrematureEOF), p, rs, Some(0), Some(delta), buf1)
      else
        match VarLen(data, p + 1)
        case Err(e) => Step(Err(e), |data|, rs, Some(0), Some(delta), buf1)
        case Ok(q) =>
          if data[p] == END_OF_TRACK then Step(Ok(EndOfTrack), q.next, rs, Some(0), Some(delta), buf1)
          else Step(Ok(Skipped), q.next + q.value, rs, Some(0), Some(delta), buf1)
    else if evSize > bufLen || evSize == 0 || p >= |data| then
      Step(Ok(Skipped), p + SkipOffset(evSize), rs, Some(evSize), Some(delta), buf1)
    else
      assert status / 0x10 == 9 ==> MaskChannel(status) == NOTE_ON;
      Step(Ok(Produced(evSize)), p + Min(evSize - 1, |data| - p), rs, Some(evSize), Some(delta),
           Normalize(CopyData(buf1, data, p, evSize - 1)))
  }

  /** One call of `read_event(buf_len, buf, ev_size, delta_time)` on the track
      `track` (0: none selected) of a file that is open or not. */
  function DecodeEvent(data: seq<byte>, pos: nat, track: nat, isOpen: bool, rs: Running,
                       bufLen: nat, buf: seq<byte>): (r: Step)
    requires 0 < bufLen <= |buf| && ValidRunning(rs)
    ensures |r.buf| == |buf| && ValidRunning(r.running) && r.pos >= pos
    ensures r.result.Ok? && r.result.value.Produced? ==>
      1 <= r.result.value.size <= 3 && r.result.value.size <= bufLen
      && r.evSize == Some(r.result.value.size)
  {
    if track == 0 then Step(Err(LogicError), pos, rs, None, None, buf)
    else if !isOpen || pos >= |data| then Step(Ok(EndOfTrack), pos, rs, None, None, buf)
    else
      match VarLen(data, pos)
      case Err(e) => Step(Err(e), |data|, rs, None, None, buf)
      case Ok(q) =>
        if q.next >= |data| then Step(Err(PrematureEOF), q.next, rs, None, Some(q.value), buf)
        else if data[q.next] < 0x80 && rs.lastStatus == 0 then
          Step(Err(CorruptFile), q.next + 1, rs, None, Some(q.value), buf)
        else
          var explicit := data[q.next] >= 0x80;
          var rs' := if explicit then Running(data[q.next], MidiEventSize(data[q.next]) + 1) else rs;
          DecodeBody(data, if explicit then q.next + 1 else q.next, rs', rs'.lastStatus, rs'.lastSize,
                     q.value, bufLen, buf)
  }

  // ---------------------------------------------------------------- properties

  /** `read_event` without a selected track throws logic_error; on a closed file
      or at the end of the file it returns -1; neither touches anything. */
  lemma NotReadable(data: seq<byte>, pos: nat, track: nat, isOpen: bool, rs: Running,
                    bufLen: nat, buf: seq<byte>)
    requires 0 < bufLen <= |buf| && ValidRunning(rs)
    ensures track == 0 ==>
      DecodeEvent(data, pos, track, isOpen, rs, bufLen, buf) == Step(Err(LogicError), pos, rs, None, None, buf)
    ensures track != 0 && (!isOpen || pos >= |data|) ==>
      DecodeEvent(data, pos, track, isOpen, rs, bufLen, buf) == Step(Ok(EndOfTrack), pos, rs, None, None, buf)
  {
  }

  /** A delta time that runs to the end of the file raises PrematureEOF and
      leaves the cursor at the end, `*delta_time` untouched. */
  lemma DeltaTimeUnfinished(data: seq<byte>, pos: nat, track: nat, rs: Running,
                            bufLen: nat, buf: seq<byte>)
    requires 0 < bufLen <= |buf| && ValidRunning(rs) && track != 0 && pos < |data|
    requires VarLen(data, pos).Err?
    ensures DecodeEvent(data, pos, track, true, rs, bufLen, buf)
         == Step(Err(PrematureEOF), |data|, rs, None, None, buf)
  {
  }

  /** A delta time with nothing after it raises PrematureEOF once the delta
      time is stored. */
  lemma StatusMissing(data: seq<byte>, pos: nat, track: nat, rs: Running, bufLen: nat,
                      buf: seq<byte>, delta: uint32, q: nat)
    requires 0 < bufLen <= |buf| && ValidRunning(rs) && track != 0 && pos < |data|
    requires VarLen(data, pos) == Ok(Quantity(delta, q)) && q >= |data|
    ensures DecodeEvent(data, pos, track, true, rs, bufLen, buf)
         == Step(Err(PrematureEOF), q, rs, None, Some(delta), buf)
  {
  }

  /** A data byte where a status byte is due, with no status seen before, is
      a corrupt file; the cursor is past that byte. */
  lemma RunningStatusWithoutPrior(data: seq<byte>, pos: nat, track: nat, rs: Running, bufLen: nat,
                                  buf: seq<byte>, delta: uint32, q: nat)
    requires 0 < bufLen <= |buf| && ValidRunning(rs) && track != 0 && pos < |data|
    requires rs.lastStatus == 0
    requires VarLen(data, pos) == Ok(Quantity(delta, q)) && q < |data| && data[q] < 0x80
    ensures DecodeEvent(data, pos, track, true, rs, bufLen, buf)
         == Step(Err(CorruptFile), q + 1, rs, None, Some(delta), buf)
  {
  }

  /** Any call that gets as far as reading the delta time reports it, whether
      the event is produced, skipped or ends the track. */
  lemma DeltaTimeReported(data: seq<byte>, pos: nat, track: nat, rs: Running,
                          bufLen: nat, buf: seq<byte>)
    requires 0 < bufLen <= |buf| && ValidRunning(rs)
    requires track != 0 && pos < |data|
    ensures var r := DecodeEvent(data, pos, track, true, rs, bufLen, buf);
      r.result.Ok? ==> VarLen(data, pos).Ok? && r.deltaTime == Some(VarLen(data, pos).value.value)
  {
  }

  /** With an explicit status byte after the delta time, the call goes on with
      that status, and the length the table gives it, as the new running status. */
  lemma ExplicitStatus(data: seq<byte>, pos: nat, track: nat, rs: Running, bufLen: nat,
                       buf: seq<byte>, delta: uint32, q: nat)
    requires 0 < bufLen <= |buf| && ValidRunning(rs) && track != 0 && pos < |data|
    requires VarLen(data, pos) == Ok(Quantity(delta, q)) && q < |data| && data[q] >= 0x80
    ensures DecodeEvent(data, pos, track, true, rs, bufLen, buf)
      == DecodeBody(data, q + 1, Running(data[q], MidiEventSize(data[q]) + 1), data[q],
                    MidiEventSize(data[q]) + 1, delta, bufLen, buf)
  {
  }

  /** With a data byte after the delta time and a status in force, the call
      goes on with the stored status and length, the cursor back on that byte. */
  lemma ImplicitStatus(data: seq<byte>, pos: nat, track: nat, rs: Running, bufLen: nat,
                       buf: seq<byte>, delta: uint32, q: nat)
    requires 0 < bufLen <= |buf| && ValidRunning(rs) && track != 0 && pos < |data|
    requires VarLen(data, pos) == Ok(Quantity(delta, q)) && q < |data| && data[q] < 0x80
    requires rs.lastStatus != 0
    ensures DecodeEvent(data, pos, track, true, rs, bufLen, buf)
      == DecodeBody(data, q, rs, rs.lastStatus, rs.lastSize, delta, bufLen, buf)
  {
  }

  /** The body of a meta event: its type byte at `p`, its length after it.
      Type 0x2F ends the track with the cursor after the length; any other
      type is skipped with the cursor after the payload. */
  lemma MetaBody(data: seq<byte>, p: nat, rs: Running, delta: uint32, bufLen: nat,
                 buf: seq<byte>, len: uint32, next: nat)
    requires 0 < bufLen <= |buf| && p < |data|
    requires VarLen(data, p + 1) == Ok(Quantity(len, next))
    ensures DecodeBody(data, p, rs, META, 1, delta, bufLen, buf)
      == if data[p] == END_OF_TRACK
         then Step(Ok(EndOfTrack), next, rs, Some(0), Some(delta), buf[0 := META])
         else Step(Ok(Skipped), next + len, rs, Some(0), Some(delta), buf[0 := META])
  {
  }

  /** A meta event (status 0xFF after the delta time) of type 0x2F ends the
      track: -1 is returned, `*ev_size` is 0, only `buf[0]` is written, and the
      cursor is left after the length field. */
  lemma MetaEndOfTrack(data: seq<byte>, pos: nat, track: nat, rs: Running, bufLen: nat,
                       buf: seq<byte>, delta: uint32, q: nat, len: uint32, next: nat)
    requires 0 < bufLen <= |buf| && ValidRunning(rs) && track != 0 && pos < |data|
    requires VarLen(data, pos) == Ok(Quantity(delta, q)) && q + 1 < |data|
    requires data[q] == META && data[q + 1] == END_OF_TRACK
    requires VarLen(data, q + 2) == Ok(Quantity(len, next))
    ensures DecodeEvent(data, pos, track, true, rs, bufLen, buf)
      == Step(Ok(EndOfTrack), next, Running(META, 1), Some(0), Some(delta), buf[0 := META])
  {
    assert MidiEventSize(META) == 0;
    ExplicitStatus(data, pos, track, rs, bufLen, buf, delta, q);
    MetaBody(data, q + 1, Running(META, 1), delta, bufLen, buf, len, next);
  }

  /** Any other meta event is skipped: 0 is returned, `*ev_size` is 0, and the
      cursor ends just past its payload, at the next delta time. */
  lemma MetaSkipped(data: seq<byte>, pos: nat, track: nat, rs: Running, bufLen: nat,
                    buf: seq<byte>, delta: uint32, q: nat, len: uint32, next: nat)
    requires 0 < bufLen <= |buf| && ValidRunning(rs) && track != 0 && pos < |data|
    requires VarLen(data, pos) == Ok(Quantity(delta, q)) && q + 1 < |data|
    requires data[q] == META && data[q + 1] != END_OF_TRACK
    requires VarLen(data, q + 2) == Ok(Quantity(len, next))
    ensures DecodeEvent(data, pos, track, true, rs, bufLen, buf)
      == Step(Ok(Skipped), next + len, Running(META, 1), Some(0), Some(delta), buf[0 := META])
  {
    assert MidiEventSize(META) == 0;
    ExplicitStatus(data, pos, track, rs, bufLen, buf, delta, q);
    MetaBody(data, q + 1, Running(META, 1), delta, bufLen, buf, len, next);
  }

  /** Copying data bytes that are all in the file. */
  lemma CopyInFile(buf: seq<byte>, status: byte, data: seq<byte>, p: nat, n: nat)
    requires 1 + n <= |buf| && p + n <= |data|
    ensures CopyData(buf[0 := status], data, p, n) == [status] + data[p..p + n] + buf[n + 1..]
  {
    var buf1 := buf[0 := status];
    assert buf1[..1] == [status];
    assert buf1[1 + n..] == buf[n + 1..];
  }

  /** The body of an event of known length, other than a meta event, whose
      data bytes are all in the file and fit the buffer. */
  lemma ProducedBody(data: seq<byte>, p: nat, rs: Running, status: byte, evSize: uint32, n: nat,
                     delta: uint32, bufLen: nat, buf: seq<byte>)
    requires 0 < bufLen <= |buf| && p < |data|
    requires status >= 0x80 && status != META && evSize == MidiEventSize(status) + 1
    requires evSize == n + 1 && evSize <= bufLen && p + n <= |data|
    ensures DecodeBody(data, p, rs, status, evSize, delta, bufLen, buf)
      == Step(Ok(Produced(n + 1)), p + n, rs, Some(n + 1), Some(delta),
              Normalize([status] + data[p..p + n] + buf[n + 1..]))
  {
    CopyInFile(buf, status, data, p, n);
  }

  /** A channel or system event of known length that fits the buffer is
      produced: its length is returned, the status and exactly its data bytes
      are copied (then normalised), the rest of the buffer is untouched, and
      the cursor ends at the next delta time. */
  lemma EventProduced(data: seq<byte>, pos: nat, track: nat, rs: Running, bufLen: nat,
                      buf: seq<byte>, delta: uint32, q: nat, status: byte)
    requires 0 < bufLen <= |buf| && ValidRunning(rs) && track != 0 && pos < |data|
    requires VarLen(data, pos) == Ok(Quantity(delta, q)) && q + 1 < |data| && data[q] == status
    requires status >= 0x80 && status != META && MidiEventSize(status) >= 0
    requires MidiEventSize(status) + 1 <= bufLen && q + 1 + MidiEventSize(status) <= |data|
    ensures var n := MidiEventSize(status);
      DecodeEvent(data, pos, track, true, rs, bufLen, buf)
      == Step(Ok(Produced(n + 1)), q + 1 + n, Running(status, n + 1), Some(n + 1), Some(delta),
              Normalize([status] + data[q + 1..q + 1 + n] + buf[n + 1..]))
  {
    ExplicitStatus(data, pos, track, rs, bufLen, buf, delta, q);
    ProducedBody(data, q + 1, Running(status, MidiEventSize(status) + 1), status,
                 MidiEventSize(status) + 1, MidiEventSize(status), delta, bufLen, buf);
  }

  /** An event of known length that does not fit the buffer is skipped: 0 is
      returned, `*ev_size` holds its real length, only `buf[0]` is written, and
      the cursor ends at the next delta time, so the next call resumes there. */
  lemma OversizedEventSkipped(data: seq<byte>, pos: nat, track: nat, rs: Running, bufLen: nat,
                              buf: seq<byte>, delta: uint32, q: nat, status: byte)
    requires 0 < bufLen <= |buf| && ValidRunning(rs) && track != 0 && pos < |data|
    requires VarLen(data, pos) == Ok(Quantity(delta, q)) && q < |data| && data[q] == status
    requires status >= 0x80 && status != META && MidiEventSize(status) + 1 > bufLen
    ensures var n := MidiEventSize(status);
      DecodeEvent(data, pos, track, true, rs, bufLen, buf)
      == Step(Ok(Skipped), q + 1 + n, Running(status, n + 1), Some(n + 1), Some(delta),
              buf[0 := status])
  {
    ExplicitStatus(data, pos, track, rs, bufLen, buf, delta, q);
  }

  /** An event of unknown length (system exclusive, or a status the table does
      not list) is skipped with `*ev_size` 0, and the 32-bit `0 - 1` of the skip
      seeks 0xFFFFFFFF bytes on. */
  lemma UnknownLengthSkipped(data: seq<byte>, pos: nat, track: nat, rs: Running, bufLen: nat,
                             buf: seq<byte>, delta: uint32, q: nat, status: byte)
    requires 0 < bufLen <= |buf| && ValidRunning(rs) && track != 0 && pos < |data|
    requires VarLen(data, pos) == Ok(Quantity(delta, q)) && q < |data| && data[q] == status
    requires status >= 0x80 && MidiEventSize(status) == -1
    ensures DecodeEvent(data, pos, track, true, rs, bufLen, buf)
      == Step(Ok(Skipped), q + 1 + 0xFFFF_FFFF, Running(status, 0), Some(0), Some(delta),
              buf[0 := status])
  {
    ExplicitStatus(data, pos, track, rs, bufLen, buf, delta, q);
  }

  /** The whole event written out: a delta time, a status byte of known
      length other than 0xFF, and its data bytes, read from the start of the
      bytes into a buffer that holds it. */
  lemma EncodedEventRoundTrip(delta: uint32, status: byte, payload: seq<byte>, rest: seq<byte>,
                              track: nat, rs: Running, bufLen: nat, buf: seq<byte>)
    requires 0 < bufLen <= |buf| && ValidRunning(rs) && track != 0
    requires status >= 0x80 && status != META && MidiEventSize(status) >= 0
    requires |payload| == MidiEventSize(status) && |payload| + 1 <= bufLen && |payload| + |rest| > 0
    ensures var data := Encode(delta) + [status] + payload + rest;
      DecodeEvent(data, 0, track, true, rs, bufLen, buf)
      == Step(Ok(Produced(|payload| + 1)), |data| - |rest|, Running(status, |payload| + 1),
              Some(|payload| + 1), Some(delta), Normalize([status] + payload + buf[|payload| + 1..]))
  {
    var e := Encode(delta);
    var data := e + [status] + payload + rest;
    assert data[0..|e|] == e;
    RoundTrip(data, 0, delta);
    assert data[|e|] == status;
    assert data[|e| + 1..|e| + 1 + |payload|] == payload;
    EventProduced(data, 0, track, rs, bufLen, buf, delta, |e|, status);
  }

  /** An event read under running status, whose stored status has a known
      length that fits the buffer, is produced as if its status byte were
      present: the stored status goes to `buf[0]`, the data bytes start at
      the byte the cursor was moved back onto, and the running status stays. */
  lemma RunningStatusProduced(data: seq<byte>, pos: nat, track: nat, rs: Running, bufLen: nat,
                              buf: seq<byte>, delta: uint32, q: nat)
    requires 0 < bufLen <= |buf| && ValidRunning(rs) && track != 0 && pos < |data|
    requires VarLen(data, pos) == Ok(Quantity(delta, q)) && q < |data| && data[q] < 0x80
    requires rs.lastStatus != 0 && rs.lastStatus != META && rs.lastSize != 0
    requires rs.lastSize <= bufLen && q + rs.lastSize - 1 <= |data|
    ensures var n := rs.lastSize - 1;
      DecodeEvent(data, pos, track, true, rs, bufLen, buf)
      == Step(Ok(Produced(n + 1)), q + n, rs, Some(n + 1), Some(delta),
              Normalize([rs.lastStatus] + data[q..q + n] + buf[n + 1..]))
  {
    var n := rs.lastSize - 1;
    calc {
      DecodeEvent(data, pos, track, true, rs, bufLen, buf);
      { ImplicitStatus(data, pos, track, rs, bufLen, buf, delta, q); }
      DecodeBody(data, q, rs, rs.lastStatus, rs.lastSize, delta, bufLen, buf);
      { ProducedBody(data, q, rs, rs.lastStatus, rs.lastSize, n, delta, bufLen, buf); }
      Step(Ok(Produced(n + 1)), q + n, rs, Some(n + 1), Some(delta),
           Normalize([rs.lastStatus] + data[q..q + n] + buf[n + 1..]));
    }
  }

  /** A note-on with velocity 0 is delivered as the note-off with velocity
      0x40 on the same channel and note; the running status keeps the note-on
      status byte as read. */
  lemma NoteOnZeroIsNoteOff(data: seq<byte>, pos: nat, track: nat, rs: Running, bufLen: nat,
                            buf: seq<byte>, delta: uint32, q: nat, channel: nat, note: byte)
    requires 3 <= bufLen <= |buf| && ValidRunning(rs) && track != 0 && pos < |data|
    requires channel < 0x10 && q + 3 <= |data|
    requires VarLen(data, pos) == Ok(Quantity(delta, q))
    requires data[q] == NOTE_ON + channel && data[q + 1] == note && data[q + 2] == 0
    ensures DecodeEvent(data, pos, track, true, rs, bufLen, buf)
      == Step(Ok(Produced(3)), q + 3, Running(NOTE_ON + channel, 3), Some(3), Some(delta),
              [NOTE_OFF + channel, note, 0x40] + buf[3..])
  {
    assert MaskChannel(NOTE_ON + channel) == NOTE_ON;
    EventProduced(data, pos, track, rs, bufLen, buf, delta, q, NOTE_ON + channel);
    var b := [NOTE_ON + channel] + data[q + 1..q + 3] + buf[3..];
    assert b[0 := 0x80 + b[0] % 0x10][2 := 0x40] == [NOTE_OFF + channel, note, 0x40] + buf[3..];
  }
}
