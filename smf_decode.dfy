/** What the Standard MIDI File reader computes, as functions of the file's
    bytes and a cursor: the header fields `open` reads and the chunk scan of
    `seek_to_track`. The class in module Reader is proved to behave as these
    functions say. */
module SmfDecode {
  import opened MidiBytes
  import opened Outcomes
  import opened MidiStatus

  // ---------------------------------------------------------------- header

  /** "MThd", the tag of the header chunk. */
  const MTHD: seq<byte> := [0x4D, 0x54, 0x68, 0x64]
  /** "MTrk", the tag of a track chunk. */
  const MTRK: seq<byte> := [0x4D, 0x54, 0x72, 0x6B]
  /** Offset of the first chunk after the 14-byte header. */
  const FIRST_CHUNK: nat := 14

  /** Format type, number of tracks and division (ticks per quarter note, or
      SMPTE time when the top bit is set). */
  datatype Header = Header(format: uint16, numTracks: uint16, division: uint16)

  predicate HasMagic(d: seq<byte>) { |d| >= 4 && d[..4] == MTHD }

  /** The header fields `open` reads: nothing unless the first four bytes are
      exactly "MThd"; then three big-endian 16-bit fields at bytes 8..13. */
  function ReadHeader(d: seq<byte>): (h: Option<Header>)
    ensures h.Some? <==> HasMagic(d)
  {
    if HasMagic(d) then Some(Header(Be16At(d, 8), Be16At(d, 10), Be16At(d, 12))) else None
  }

  /** Division values with bit 0x8000 set denote SMPTE time, which is refused. */
  predicate IsSmpte(h: Header) { h.division >= 0x8000 }

  /** The cursor once the header fields are read: a seek to byte 8, then six
      bytes read, fewer when the file ends first. */
  function HeaderEnd(d: seq<byte>): nat
  {
    if |d| <= 8 then 8 else Min(|d|, 14)
  }

  /** A header chunk as the file format lays it out: tag, the length 6, and the
      three fields. */
  function HeaderBytes(h: Header): (s: seq<byte>)
    ensures |s| == 14
  {
    MTHD + Be32Bytes(6) + Be16Bytes(h.format) + Be16Bytes(h.numTracks) + Be16Bytes(h.division)
  }

  /** A file that begins with a well-formed header chunk has that header read back. */
  lemma HeaderRoundTrip(h: Header, rest: seq<byte>)
    ensures ReadHeader(HeaderBytes(h) + rest) == Some(h)
    ensures HeaderEnd(HeaderBytes(h) + rest) == FIRST_CHUNK
  {
    var d := HeaderBytes(h) + rest;
    assert d[..4] == MTHD;
    assert d[8..10] == Be16Bytes(h.format);
    assert d[10..12] == Be16Bytes(h.numTracks);
    assert d[12..14] == Be16Bytes(h.division);
    Be16RoundTrip(d, 8, h.format);
    Be16RoundTrip(d, 10, h.numTracks);
    Be16RoundTrip(d, 12, h.division);
  }

  // ---------------------------------------------------------------- chunks

  /** The 4-byte chunk id at `c` reads as "MTrk". */
  predicate IsTrackId(data: seq<byte>, c: nat)
  {
    c + 4 <= |data| && data[c..c + 4] == MTRK
  }

  /** The cursor after the 8-byte chunk header at `c`, as far as the file goes. */
  function AfterChunkHeader(data: seq<byte>, c: nat): nat { Min(c + 8, |data|) }

  /** The length field of the chunk whose header starts at `c`. */
  function ChunkLength(data: seq<byte>, c: nat): uint32 { Be32At(data, c + 4) }

  /** Where the chunk after the one at `c` starts: its length is skipped. */
  function NextChunk(data: seq<byte>, c: nat): nat
  {
    AfterChunkHeader(data, c) + ChunkLength(data, c)
  }

  datatype ScanOutcome = Found(length: uint32, cursor: nat) | NotFound(cursor: nat)

  /** The loop of `seek_to_track` from the chunk header at `c`, with `count`
      track chunks already seen: each chunk id is read, a track chunk counted,
      the length read, and the loop stops at the `target`-th track chunk;
      every other chunk is skipped by its length. The track counts as found
      only when its header ends before the end of the file. */
  function ScanChunks(data: seq<byte>, c: nat, target: nat, count: nat): (r: ScanOutcome)
    requires count < target
    decreases |data| - c
    ensures r.Found? ==> r.cursor < |data|
    ensures r.NotFound? ==> r.cursor >= |data|
  {
    if c >= |data| then NotFound(c)
    else
      var count' := if IsTrackId(data, c) then count + 1 else count;
      if count' == target then
        (if AfterChunkHeader(data, c) < |data|
         then Found(ChunkLength(data, c), AfterChunkHeader(data, c))
         else NotFound(AfterChunkHeader(data, c)))
      else ScanChunks(data, NextChunk(data, c), target, count')
  }

  /** Reference definition: the offsets of the track chunk headers met by
      walking the chunk chain from `c`, in file order. */
  function TrackHeaders(data: seq<byte>, c: nat): (t: seq<nat>)
    decreases |data| - c
    ensures forall i :: 0 <= i < |t| ==> c <= t[i] < |data|
  {
    if c >= |data| then []
    else (if IsTrackId(data, c) then [c] else []) + TrackHeaders(data, NextChunk(data, c))
  }

  /** Offsets listed in file order, each strictly below the next. */
  predicate Increasing(t: seq<nat>)
  {
    forall i, j :: 0 <= i < j < |t| ==> t[i] < t[j]
  }

  lemma ConsIncreasing(c: nat, tail: seq<nat>)
    requires Increasing(tail) && forall i :: 0 <= i < |tail| ==> c < tail[i]
    ensures Increasing([c] + tail)
  {
    var t := [c] + tail;
    forall i, j | 0 <= i < j < |t| ensures t[i] < t[j] {
      assert t[j] == tail[j - 1];
      if i > 0 {
        assert t[i] == tail[i - 1];
      }
    }
  }

  /** The track headers are listed in file order: every chunk is followed by
      one further on, so the offsets strictly increase. */
  lemma {:induction false} TrackHeadersInOrder(data: seq<byte>, c: nat)
    decreases |data| - c
    ensures Increasing(TrackHeaders(data, c))
  {
    if c < |data| {
      var next := NextChunk(data, c);
      TrackHeadersInOrder(data, next);
      if IsTrackId(data, c) {
        ConsIncreasing(c, TrackHeaders(data, next));
      }
    }
  }

  /** The scan finds the n-th track exactly when the chunk chain holds at least
      n track headers and the n-th one ends before the end of the file; it then
      yields that chunk's length and the offset of its first data byte. */
  lemma {:induction false} ScanFindsNthTrack(data: seq<byte>, c: nat, target: nat, count: nat)
    requires count < target
    decreases |data| - c
    ensures var t := TrackHeaders(data, c); var k := target - count;
      (ScanChunks(data, c, target, count).Found? <==> k <= |t| && t[k - 1] + 8 < |data|)
      && (ScanChunks(data, c, target, count).Found? ==>
            ScanChunks(data, c, target, count).length == ChunkLength(data, t[k - 1])
            && ScanChunks(data, c, target, count).cursor == t[k - 1] + 8)
  {
    if c < |data| {
      var t := TrackHeaders(data, c);
      var tail := TrackHeaders(data, NextChunk(data, c));
      var count' := if IsTrackId(data, c) then count + 1 else count;
      if IsTrackId(data, c) {
        assert t == [c] + tail;
      } else {
        assert t == tail;
      }
      if count' != target {
        ScanFindsNthTrack(data, NextChunk(data, c), target, count');
        if IsTrackId(data, c) {
          assert target - count >= 2;
          assert forall i :: 1 <= i <= |tail| ==> t[i] == tail[i - 1];
        }
      }
    }
  }

  /** seek_to_track(n) from the first chunk, in terms of the track headers. */
  lemma SeekFindsNthTrack(data: seq<byte>, n: nat)
    requires n >= 1
    ensures var t := TrackHeaders(data, FIRST_CHUNK);
      (ScanChunks(data, FIRST_CHUNK, n, 0).Found? <==> n <= |t| && t[n - 1] + 8 < |data|)
      && (ScanChunks(data, FIRST_CHUNK, n, 0).Found? ==>
            ScanChunks(data, FIRST_CHUNK, n, 0).length == ChunkLength(data, t[n - 1])
            && ScanChunks(data, FIRST_CHUNK, n, 0).cursor == t[n - 1] + 8)
  {
    ScanFindsNthTrack(data, FIRST_CHUNK, n, 0);
  }
}
