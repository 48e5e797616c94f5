/** The Standard MIDI File reader as an object: the open file is its bytes and
    a cursor, and every method is proved to do what the functions of modules
    SmfDecode and SmfEvent say. */
module Reader {
  import opened MidiBytes
  import opened Outcomes
  import opened MidiStatus
  import opened Vlq
  import opened SmfDecode
  import opened SmfEvent

  /** The running-status state of `read_event`. The source keeps it in two
      function-level statics, so it is shared by every reader and survives
      `open` and `close`; here it is one object handed to every call. */
  class RunningStatus {
    var lastStatus: byte
    var lastSize: uint32

    constructor()
      ensures State() == NO_RUNNING_STATUS
    {
      lastStatus := 0;
      lastSize := 0;
    }

    function State(): Running
      reads this
    {
      Running(lastStatus, lastSize)
    }

    predicate Valid()
      reads this
    {
      ValidRunning(State())
    }
  }

  /** What one `read_event` call reports, compared with the step the
      specification computes. */
  predicate Reports(s: Step, pos: nat, running: Running, buf: seq<byte>,
                    r: Result<int>, evSize: Option<uint32>, deltaTime: Option<uint32>)
  {
    && pos == s.pos && running == s.running && buf == s.buf
    && evSize == s.evSize && deltaTime == s.deltaTime
    && (match s.result
        case Ok(o) => r == Ok(ReturnCode(o))
        case Err(e) => r == Err(e))
  }

  class SmfReader {
    /** Whether a file is open (`_fd` not NULL). */
    var isOpen: bool
    /** The open file's bytes and the file position. */
    var data: seq<byte>
    var pos: nat
    var fileType: uint16
    var numTracks: uint16
    var ppqn: uint16
    /** The selected track (0: none) and the length of its chunk. */
    var track: uint32
    var trackSize: uint32

    /** A reader with no file open and no track selected. */
    constructor()
      ensures !isOpen && ppqn == 0 && track == 0 && trackSize == 0
    {
      isOpen := false;
      data := [];
      pos := 0;
      fileType := 0;
      numTracks := 0;
      ppqn := 0;
      track := 0;
      trackSize := 0;
    }

    /** `open`: `file` is the file's contents, or None when it cannot be
        opened. A file whose first four bytes are not "MThd" is closed again;
        SMPTE division is refused after the header fields are stored, with
        the file left open; otherwise the first track is sought. The
        running status is not touched. */
    method Open(file: Option<seq<byte>>) returns (r: Result<bool>)
      modifies this
      ensures old(isOpen) ==> r == Err(LogicError) && unchanged(this)
      ensures !old(isOpen) && file.None? ==> r == Ok(false) && unchanged(this)
      ensures !old(isOpen) && file.Some? && !HasMagic(file.value) ==>
        r == Ok(false) && !isOpen && track == old(track) && trackSize == old(trackSize)
        && ppqn == old(ppqn) && fileType == old(fileType) && numTracks == old(numTracks)
      ensures !old(isOpen) && file.Some? && HasMagic(file.value) ==>
        var h := ReadHeader(file.value).value;
        isOpen && data == file.value
        && fileType == h.format && numTracks == h.numTracks && ppqn == h.division
        && (IsSmpte(h) ==>
              r == Err(UnsupportedTime) && pos == HeaderEnd(data)
              && track == old(track) && trackSize == old(trackSize))
        && (!IsSmpte(h) ==>
              r == Ok(true) && pos == ScanChunks(data, FIRST_CHUNK, 1, 0).cursor
              && match ScanChunks(data, FIRST_CHUNK, 1, 0)
                 case Found(length, _) => track == 1 && trackSize == length
                 case NotFound(_) => track == old(track) && trackSize == old(trackSize))
    {
      if isOpen {
        return Err(LogicError);
      }
      if file.None? {
        return Ok(false);
      }
      var d := file.value;
      if !HasMagic(d) {
        return Ok(false);
      }
      isOpen := true;
      data := d;
      fileType := Be16At(d, 8);
      numTracks := Be16At(d, 10);
      ppqn := Be16At(d, 12);
      pos := HeaderEnd(d);
      if ppqn >= 0x8000 {
        return Err(UnsupportedTime);
      }
      var _ := SeekToTrack(1);
      return Ok(true);
    }

    /** `seek_to_track(n)`: walks the chunks from byte 14, counting track
        chunks, and selects the n-th when its header is complete. Track 0 and
        a closed file are logic errors. */
    method SeekToTrack(n: uint32) returns (r: Result<bool>)
      modifies this`pos, this`track, this`trackSize
      ensures n == 0 || !isOpen ==> r == Err(LogicError) && unchanged(this)
      ensures n != 0 && isOpen ==>
        var s := ScanChunks(data, FIRST_CHUNK, n, 0);
        pos == s.cursor && r == Ok(s.Found?)
        && (s.Found? ==> track == n && trackSize == s.length)
        && (s.NotFound? ==> track == old(track) && trackSize == old(trackSize))
    {
      if n == 0 || !isOpen {
        return Err(LogicError);
      }
      var count: nat := 0;
      var chunkSize: uint32 := 0;
      var c: nat := FIRST_CHUNK;
      ghost var goal := ScanChunks(data, FIRST_CHUNK, n, 0);
      while c < |data|
        invariant count < n
        invariant ScanChunks(data, c, n, count) == goal
        decreases |data| - c
      {
        if IsTrackId(data, c) {
          count := count + 1;
        }
        chunkSize := ChunkLength(data, c);
        c := AfterChunkHeader(data, c);
        if count == n {
          assert goal == if c < |data| then Found(chunkSize, c) else NotFound(c);
          break;
        }
        c := c + chunkSize;
      }
      pos := c;
      if c < |data| && count == n {
        track := n;
        trackSize := chunkSize;
        return Ok(true);
      }
      return Ok(false);
    }

    /** `read_event(buf_len, buf, ev_size, delta_time)`: the values stored in
        `*ev_size` and `*delta_time` are returned as options (None: not
        written). The call does what DecodeEvent says, on the state before it:
        the same result or exception, cursor, running status and buffer. */
    method ReadEvent(rs: RunningStatus, bufLen: nat, buf: array<byte>)
        returns (r: Result<int>, evSize: Option<uint32>, deltaTime: Option<uint32>)
      requires rs.Valid() && 0 < bufLen <= buf.Length
      modifies this`pos, rs, buf
      ensures rs.Valid()
      ensures Reports(DecodeEvent(data, old(pos), track, isOpen, old(rs.State()), bufLen, old(buf[..])),
                      pos, rs.State(), buf[..], r, evSize, deltaTime)
    {
      NotReadable(data, pos, track, isOpen, rs.State(), bufLen, buf[..]);
      if track == 0 {
        return Err(LogicError), None, None;
      }
      if !isOpen || pos >= |data| {
        return Ok(-1), None, None;
      }
      r, evSize, deltaTime := ReadDelta(rs, bufLen, buf);
    }

    /** `read_event` from the delta time on, in an open file with a track
        selected and the cursor before the end. */
    method ReadDelta(rs: RunningStatus, bufLen: nat, buf: array<byte>)
        returns (r: Result<int>, evSize: Option<uint32>, deltaTime: Option<uint32>)
      requires rs.Valid() && 0 < bufLen <= buf.Length
      requires track != 0 && isOpen && pos < |data|
      modifies this`pos, rs, buf
      ensures rs.Valid()
      ensures Reports(DecodeEvent(data, old(pos), track, true, old(rs.State()), bufLen, old(buf[..])),
                      pos, rs.State(), buf[..], r, evSize, deltaTime)
    {
      var v := ReadVarLen(data, pos);
      if v.Err? {
        DeltaTimeUnfinished(data, pos, track, rs.State(), bufLen, buf[..]);
        pos := |data|;
        return Err(PrematureEOF), None, None;
      }
      deltaTime := Some(v.value.value);
      r, evSize := ReadStatus(rs, bufLen, buf, v.value.value, v.value.next);
    }

    /** `read_event` from the status byte on, the delta time `delta` having
        been read from the cursor up to `q`. */
    method ReadStatus(rs: RunningStatus, bufLen: nat, buf: array<byte>, delta: uint32, q: nat)
        returns (r: Result<int>, evSize: Option<uint32>)
      requires rs.Valid() && 0 < bufLen <= buf.Length
      requires track != 0 && isOpen && pos < |data| && VarLen(data, pos) == Ok(Quantity(delta, q))
      modifies this`pos, rs, buf
      ensures rs.Valid()
      ensures Reports(DecodeEvent(data, old(pos), track, true, old(rs.State()), bufLen, old(buf[..])),
                      pos, rs.State(), buf[..], r, evSize, Some(delta))
    {
      if q >= |data| {
        StatusMissing(data, pos, track, rs.State(), bufLen, buf[..], delta, q);
        pos := q;
        return Err(PrematureEOF), None;
      }
      var status := data[q];
      if status < 0x80 {
        if rs.lastStatus == 0 {
          RunningStatusWithoutPrior(data, pos, track, rs.State(), bufLen, buf[..], delta, q);
          pos := q + 1;
          return Err(CorruptFile), None;
        }
        ImplicitStatus(data, pos, track, rs.State(), bufLen, buf[..], delta, q);
        pos := q;
        r, evSize := ReadBody(rs.lastStatus, rs.lastSize, delta, bufLen, buf, rs.State());
      } else {
        ExplicitStatus(data, pos, track, rs.State(), bufLen, buf[..], delta, q);
        rs.lastStatus := status;
        rs.lastSize := MidiEventSize(status) + 1;
        pos := q + 1;
        r, evSize := ReadBody(status, rs.lastSize, delta, bufLen, buf, rs.State());
      }
    }

    /** The rest of `read_event` once the status is known: a meta event is
        read up to its length and ended or skipped, an event that cannot be
        read is skipped by its length, and any other has its data bytes
        copied into `buf` after the status, then normalised. */
    method ReadBody(status: byte, size: uint32, delta: uint32, bufLen: nat, buf: array<byte>,
                    ghost running: Running)
        returns (r: Result<int>, evSize: Option<uint32>)
      requires 0 < bufLen <= buf.Length && pos <= |data|
      requires status >= 0x80 && size == MidiEventSize(status) + 1
      modifies this`pos, buf
      ensures Reports(DecodeBody(data, old(pos), running, status, size, delta, bufLen, old(buf[..])),
                      pos, running, buf[..], r, evSize, Some(delta))
    {
      if status == META {
        r, evSize := ReadMeta(delta, bufLen, buf, running);
        return;
      }
      buf[0] := status;
      if size > bufLen || size == 0 || pos >= |data| {
        pos := pos + SkipOffset(size);
        return Ok(0), Some(size);
      }
      CopyIn(buf, pos, size - 1);
      pos := pos + Min(size - 1, |data| - pos);
      assert status / 0x10 == 9 ==> MaskChannel(status) == NOTE_ON;
      NormalizeIn(buf);
      return Ok(size), Some(size);
    }

    /** The rewrite of a note-on with velocity 0, done in the buffer. */
    static method NormalizeIn(buf: array<byte>)
      requires buf.Length > 0 && (buf[0] / 0x10 == 9 ==> buf.Length >= 3)
      modifies buf
      ensures buf[..] == Normalize(old(buf[..]))
    {
      if buf[0] / 0x10 == 9 && buf[2] == 0 {
        buf[0] := 0x80 + buf[0] % 0x10;
        buf[2] := 0x40;
      }
    }

    /** A meta event: its type byte and length are read; type 0x2F ends the
        track, any other is skipped by its length. */
    method ReadMeta(delta: uint32, bufLen: nat, buf: array<byte>, ghost running: Running)
        returns (r: Result<int>, evSize: Option<uint32>)
      requires 0 < bufLen <= buf.Length && pos <= |data|
      modifies this`pos, buf
      ensures Reports(DecodeBody(data, old(pos), running, META, 1, delta, bufLen, old(buf[..])),
                      pos, running, buf[..], r, evSize, Some(delta))
    {
      buf[0] := META;
      if pos >= |data| {
        return Err(PrematureEOF), Some(0);
      }
      var kind := data[pos];
      var v := ReadVarLen(data, pos + 1);
      if v.Err? {
        pos := |data|;
        return Err(PrematureEOF), Some(0);
      }
      pos := v.value.next;
      if kind == END_OF_TRACK {
        return Ok(-1), Some(0);
      }
      pos := pos + v.value.value;
      return Ok(0), Some(0);
    }

    /** `fread(buf + 1, 1, n)` from the cursor `p`: the bytes the file still
        holds, at most `n`, go to `buf[1..]`, and nothing else changes. */
    method CopyIn(buf: array<byte>, p: nat, n: nat)
      requires 1 + n <= buf.Length && p <= |data|
      modifies buf
      ensures buf[..] == CopyData(old(buf[..]), data, p, n)
    {
      ghost var start := buf[..];
      var avail := Min(n, |data| - p);
      var i := 0;
      while i < avail
        invariant 0 <= i <= avail
        invariant forall k :: 0 <= k < buf.Length ==> buf[k] == if 1 <= k <= i then data[p + k - 1] else start[k]
      {
        buf[1 + i] := data[p + i];
        i := i + 1;
      }
      CopiedBytes(start, data, p, n, buf[..]);
    }

    /** Equality with CopyData, byte by byte. */
    static lemma CopiedBytes(start: seq<byte>, data: seq<byte>, p: nat, n: nat, b: seq<byte>)
      requires 1 + n <= |start| == |b| && p <= |data|
      requires forall k :: 0 <= k < |b| ==>
        b[k] == if 1 <= k <= Min(n, |data| - p) then data[p + k - 1] else start[k]
      ensures b == CopyData(start, data, p, n)
    {
      var avail := Min(n, |data| - p);
      var c := CopyData(start, data, p, n);
      forall k | 0 <= k < |b|
        ensures b[k] == c[k]
      {
        if k == 0 {
        } else if k <= avail {
          assert c[k] == data[p..p + avail][k - 1];
        } else {
          assert c[k] == start[1 + avail..][k - 1 - avail];
        }
      }
    }

    /** `close`: the file is closed; the selected track is kept. */
    method Close()
      modifies this`isOpen
      ensures !isOpen
    {
      isOpen := false;
    }
  }
}
