/** The status-byte to event-length table of the reader (`midi_event_size`). */
module MidiStatus {
  import opened MidiBytes

  // MIDI status values, as the LV2 MIDI extension names them.
  const NOTE_OFF: byte := 0x80
  const NOTE_ON: byte := 0x90
  const NOTE_PRESSURE: byte := 0xA0
  const CONTROLLER: byte := 0xB0
  const PGM_CHANGE: byte := 0xC0
  const CHANNEL_PRESSURE: byte := 0xD0
  const BENDER: byte := 0xE0
  const SYSTEM_EXCLUSIVE: byte := 0xF0
  const MTC_QUARTER: byte := 0xF1
  const SONG_POS: byte := 0xF2
  const SONG_SELECT: byte := 0xF3
  const TUNE_REQUEST: byte := 0xF6
  const CLOCK: byte := 0xF8
  const START: byte := 0xFA
  const CONTINUE: byte := 0xFB
  const STOP: byte := 0xFC
  const ACTIVE_SENSE: byte := 0xFE
  const RESET: byte := 0xFF

  /** The status with its channel nibble cleared; the reader does this only for
      0x80..0xE0, so the bender statuses 0xE1..0xEF keep their channel. */
  function MaskChannel(status: byte): (s: byte)
    ensures 0x80 <= status <= 0xE0 ==> s % 0x10 == 0 && s / 0x10 == status / 0x10
    ensures !(0x80 <= status <= 0xE0) ==> s == status
  {
    if 0x80 <= status <= 0xE0 then status / 0x10 * 0x10 else status
  }

  /** The number of data bytes that follow `status`, not counting the status
      byte itself, or -1 when the length is unknown (system exclusive and any
      status the table does not list). */
  function MidiEventSize(status: byte): (r: int)
    ensures r == -1 || r == 0 || r == 1 || r == 2
  {
    var s := MaskChannel(status);
    if s == NOTE_OFF || s == NOTE_ON || s == NOTE_PRESSURE || s == CONTROLLER
       || s == BENDER || s == SONG_POS then 2
    else if s == PGM_CHANGE || s == CHANNEL_PRESSURE || s == MTC_QUARTER
       || s == SONG_SELECT then 1
    else if s == TUNE_REQUEST || s == CLOCK || s == START || s == CONTINUE
       || s == STOP || s == ACTIVE_SENSE || s == RESET then 0
    else -1
  }

  /** For a channel status in 0x80..0xE0 the length depends only on the
      message kind, the high nibble. */
  lemma ChannelIgnored(status: byte, other: byte)
    requires 0x80 <= status <= 0xE0 && 0x80 <= other <= 0xE0
    requires status / 0x10 == other / 0x10
    ensures MidiEventSize(status) == MidiEventSize(other)
  {
    assert MaskChannel(status) == MaskChannel(other);
  }

  /** The table, status by status: which statuses carry two data bytes, which
      one, which none, and which are of unknown length. */
  lemma EventSizeTable(status: byte)
    ensures MidiEventSize(status) == 2 <==>
      (0x80 <= status < 0xC0 || status == 0xE0 || status == 0xF2)
    ensures MidiEventSize(status) == 1 <==>
      (0xC0 <= status < 0xE0 || status == 0xF1 || status == 0xF3)
    ensures MidiEventSize(status) == 0 <==>
      (status == 0xF6 || status == 0xF8 || 0xFA <= status <= 0xFC || status == 0xFE || status == 0xFF)
    ensures MidiEventSize(status) == -1 <==>
      (status < 0x80 || 0xE1 <= status <= 0xF0 || status == 0xF4 || status == 0xF5
       || status == 0xF7 || status == 0xF9 || status == 0xFD)
  {
    var s := MaskChannel(status);
    if 0x80 <= status <= 0xE0 {
      var hi := status / 0x10;
      assert 8 <= hi <= 0xE;
      assert s == hi * 0x10;
      assert 0x80 <= status < 0xC0 <==> 8 <= hi < 0xC;
      assert 0xC0 <= status < 0xE0 <==> 0xC <= hi < 0xE;
    }
  }

  /** The channel mask stops at 0xE0: a pitch-bend message on any channel but
      the first is looked up unmasked and classified as unknown. */
  lemma BenderAboveFirstChannelUnknown(status: byte)
    requires 0xE1 <= status <= 0xEF
    ensures MidiEventSize(status) == -1
  {
  }
}
