/** Fixed-width integers and big-endian field reads over the bytes of a file. */
module MidiBytes {

  type byte = x: int | 0 <= x < 0x100
  type uint16 = x: int | 0 <= x < 0x1_0000
  type uint32 = x: int | 0 <= x < 0x1_0000_0000

  function Min(a: int, b: int): int { if a <= b then a else b }

  /** The byte at offset `i`, or 0 past the end of the file: a read into a
      zero-initialised field that runs off the end leaves the missing bytes 0. */
  function ByteAt(data: seq<byte>, i: nat): byte
  {
    if i < |data| then data[i] else 0
  }

  /** A big-endian 16-bit field at offset `i` (GUINT16_FROM_BE of the bytes read). */
  function Be16At(data: seq<byte>, i: nat): uint16
  {
    ByteAt(data, i) * 0x100 + ByteAt(data, i + 1)
  }

  /** A big-endian 32-bit field at offset `i` (GUINT32_FROM_BE of the bytes read). */
  function Be32At(data: seq<byte>, i: nat): uint32
  {
    Be16At(data, i) * 0x1_0000 + Be16At(data, i + 2)
  }

  /** The big-endian encoding of a 16-bit value, as the file format stores it. */
  function Be16Bytes(x: uint16): (s: seq<byte>)
    ensures |s| == 2
  {
    [x / 0x100, x % 0x100]
  }

  /** The big-endian encoding of a 32-bit value. */
  function Be32Bytes(x: uint32): (s: seq<byte>)
    ensures |s| == 4
  {
    Be16Bytes(x / 0x1_0000) + Be16Bytes(x % 0x1_0000)
  }

  lemma Be16RoundTrip(data: seq<byte>, i: nat, x: uint16)
    requires i + 2 <= |data| && data[i..i + 2] == Be16Bytes(x)
    ensures Be16At(data, i) == x
  {
    assert data[i] == x / 0x100 && data[i + 1] == x % 0x100 by {
      assert data[i..i + 2][0] == data[i] && data[i..i + 2][1] == data[i + 1];
    }
  }

  lemma Be32RoundTrip(data: seq<byte>, i: nat, x: uint32)
    requires i + 4 <= |data| && data[i..i + 4] == Be32Bytes(x)
    ensures Be32At(data, i) == x
  {
    assert data[i..i + 2] == data[i..i + 4][..2];
    assert data[i + 2..i + 4] == data[i..i + 4][2..];
    Be16RoundTrip(data, i, x / 0x1_0000);
    Be16RoundTrip(data, i + 2, x % 0x1_0000);
  }
}
