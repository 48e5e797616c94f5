/** Variable-length quantities (`read_var_len`): seven bits per byte, most
    significant group first, the top bit of a byte set on every byte but the
    last. The accumulator is a 32-bit unsigned value, so `value << 7` drops the
    bits shifted out. */
module Vlq {
  import opened MidiBytes
  import opened Outcomes

  /** A decoded quantity and the cursor just after its last byte. */
  datatype Quantity = Quantity(value: uint32, next: nat)

  const UINT32_MODULUS := 0x1_0000_0000

  /** One accumulation step: `(value << 7) + (c & 0x7F)` on a 32-bit value. */
  function Accumulate(acc: uint32, c: byte): uint32
  {
    (acc * 0x80 + c % 0x80) % UINT32_MODULUS
  }

  /** The continuation bytes from `pos` on, with `acc` accumulated so far: the
      quantity ends at the first byte whose top bit is clear. */
  function VarLenRest(data: seq<byte>, pos: nat, acc: uint32): (r: Result<Quantity>)
    decreases |data| - pos
    ensures r.Err? ==> r.error == PrematureEOF
    ensures r.Ok? ==> pos < r.value.next <= |data|
  {
    if pos >= |data| then Err(PrematureEOF)
    else if data[pos] >= 0x80 then VarLenRest(data, pos + 1, Accumulate(acc, data[pos]))
    else Ok(Quantity(Accumulate(acc, data[pos]), pos + 1))
  }

  /** The quantity that starts at `pos`. A first byte below 0x80 is the value
      itself; reaching the end of the file before the first byte or before the
      last raises PrematureEOF. */
  function VarLen(data: seq<byte>, pos: nat): (r: Result<Quantity>)
    ensures r.Err? ==> r.error == PrematureEOF
    ensures r.Ok? ==> pos < r.value.next <= |data|
  {
    if pos >= |data| then Err(PrematureEOF)
    else if data[pos] < 0x80 then Ok(Quantity(data[pos], pos + 1))
    else VarLenRest(data, pos + 1, data[pos] % 0x80)
  }

  /** `read_var_len` over the file bytes and a cursor: the loop of the source,
      shown to compute VarLen. */
  method ReadVarLen(data: seq<byte>, pos: nat) returns (r: Result<Quantity>)
    ensures r == VarLen(data, pos)
  {
    if pos >= |data| {
      return Err(PrematureEOF);
    }
    var value: uint32 := data[pos];
    var cursor := pos + 1;
    if value >= 0x80 {
      value := value % 0x80;
      var c: byte := 0x80;
      while c >= 0x80
        invariant pos < cursor <= |data|
        invariant c >= 0x80 ==> VarLenRest(data, cursor, value) == VarLen(data, pos)
        invariant c < 0x80 ==> VarLen(data, pos) == Ok(Quantity(value, cursor))
        decreases |data| - cursor, c
      {
        if cursor >= |data| {
          return Err(PrematureEOF);
        }
        c := data[cursor];
        value := Accumulate(value, c);
        cursor := cursor + 1;
      }
    }
    return Ok(Quantity(value, cursor));
  }

  lemma {:induction false} RestShape(data: seq<byte>, pos: nat, acc: uint32)
    decreases |data| - pos
    ensures VarLenRest(data, pos, acc).Ok? ==>
      var next := VarLenRest(data, pos, acc).value.next;
      data[next - 1] < 0x80 && forall i :: pos <= i < next - 1 ==> data[i] >= 0x80
  {
    if pos < |data| && data[pos] >= 0x80 {
      RestShape(data, pos + 1, Accumulate(acc, data[pos]));
    }
  }

  /** A quantity read with success ends at the first byte from the cursor
      whose top bit is clear: every byte before it has the top bit set. */
  lemma Shape(data: seq<byte>, pos: nat)
    ensures VarLen(data, pos).Ok? ==>
      var next := VarLen(data, pos).value.next;
      data[next - 1] < 0x80 && forall i :: pos <= i < next - 1 ==> data[i] >= 0x80
  {
    if pos < |data| && data[pos] >= 0x80 {
      RestShape(data, pos + 1, data[pos] % 0x80);
    }
  }

  /** Appending the low seven bits of `w` to `w / 0x80` gives `w` back, with or
      without the continuation bit set on the byte. */
  lemma AccumulateDigit(w: nat, c: byte)
    requires w < UINT32_MODULUS
    requires c == w % 0x80 || c == w % 0x80 + 0x80
    ensures Accumulate(w / 0x80, c) == w
  {
    assert c % 0x80 == w % 0x80;
    assert (w / 0x80) * 0x80 + w % 0x80 == w;
  }

  /** The bytes before the last one of an encoding: the 7-bit groups of `w`,
      most significant first, each with its top bit set. */
  function Continuation(w: nat): (s: seq<byte>)
    requires w >= 1
    ensures |s| >= 1
    ensures forall i :: 0 <= i < |s| ==> s[i] >= 0x80
  {
    if w < 0x80 then [w + 0x80] else Continuation(w / 0x80) + [w % 0x80 + 0x80]
  }

  /** The Standard MIDI File encoding of a quantity. */
  function Encode(v: nat): (s: seq<byte>)
    ensures |s| >= 1 && s[|s| - 1] < 0x80
  {
    if v < 0x80 then [v] else Continuation(v / 0x80) + [v % 0x80]
  }

  /** Reading the continuation bytes of `w` from an empty accumulator leaves
      `w` accumulated and the cursor just past them. */
  lemma {:induction false} ContinuationAccumulates(data: seq<byte>, pos: nat, w: nat)
    requires 1 <= w < UINT32_MODULUS
    requires pos + |Continuation(w)| <= |data|
    requires data[pos..pos + |Continuation(w)|] == Continuation(w)
    ensures VarLenRest(data, pos, 0) == VarLenRest(data, pos + |Continuation(w)|, w)
  {
    var c := Continuation(w);
    if w < 0x80 {
      assert data[pos] == c[0];
      assert Accumulate(0, data[pos]) == w;
    } else {
      var c' := Continuation(w / 0x80);
      var last := [w % 0x80 + 0x80];
      assert c == c' + last;
      SplitSlice(data, pos, c', last);
      var p := pos + |c'|;
      assert data[p] == data[p..p + 1][0];
      calc {
        VarLenRest(data, pos, 0);
        { ContinuationAccumulates(data, pos, w / 0x80); }
        VarLenRest(data, p, w / 0x80);
        { RestStep(data, p, w / 0x80); }
        VarLenRest(data, p + 1, Accumulate(w / 0x80, data[p]));
        { AccumulateDigit(w, data[p]); }
        VarLenRest(data, pos + |c|, w);
      }
    }
  }

  /** A continuation byte adds its seven bits and the loop goes on. */
  lemma RestStep(data: seq<byte>, p: nat, acc: uint32)
    requires p < |data| && data[p] >= 0x80
    ensures VarLenRest(data, p, acc) == VarLenRest(data, p + 1, Accumulate(acc, data[p]))
  {
  }

  /** Splitting a slice that holds `a + b` into its two parts. */
  lemma SplitSlice(data: seq<byte>, pos: nat, a: seq<byte>, b: seq<byte>)
    requires pos + |a| + |b| <= |data| && data[pos..pos + |a| + |b|] == a + b
    ensures data[pos..pos + |a|] == a && data[pos + |a|..pos + |a| + |b|] == b
  {
    assert data[pos..pos + |a|] == data[pos..pos + |a| + |b|][..|a|];
    assert data[pos + |a|..pos + |a| + |b|] == data[pos..pos + |a| + |b|][|a|..];
  }

  /** A first byte with its top bit set starts the continuation loop with an
      empty accumulator. */
  lemma EntersRest(data: seq<byte>, pos: nat)
    requires pos < |data| && data[pos] >= 0x80
    ensures VarLen(data, pos) == VarLenRest(data, pos, 0)
  {
    assert Accumulate(0, data[pos]) == data[pos] % 0x80;
  }

  /** The last byte of an encoding of `v` completes it. */
  lemma LastDigit(data: seq<byte>, p: nat, v: uint32)
    requires p < |data| && v >= 0x80 && data[p] == v % 0x80
    ensures VarLenRest(data, p, v / 0x80) == Ok(Quantity(v, p + 1))
  {
    AccumulateDigit(v, data[p]);
  }

  /** Decoding the encoding of any 32-bit value gives that value back, and the
      cursor advances by exactly the length of the encoding. */
  lemma {:induction false} RoundTrip(data: seq<byte>, pos: nat, v: uint32)
    requires pos + |Encode(v)| <= |data|
    requires data[pos..pos + |Encode(v)|] == Encode(v)
    ensures VarLen(data, pos) == Ok(Quantity(v, pos + |Encode(v)|))
  {
    var e := Encode(v);
    if v < 0x80 {
      assert data[pos] == e[0];
    } else {
      var c := Continuation(v / 0x80);
      assert e == c + [v % 0x80];
      SplitSlice(data, pos, c, [v % 0x80]);
      assert data[pos] == c[0];
      EntersRest(data, pos);
      ContinuationAccumulates(data, pos, v / 0x80);
      var p := pos + |c|;
      assert data[p] == data[p..p + 1][0];
      LastDigit(data, p, v);
    }
  }

  /** The same round trip for an encoding at the start of a byte sequence. */
  lemma RoundTripPrefix(v: uint32, rest: seq<byte>)
    ensures VarLen(Encode(v) + rest, 0) == Ok(Quantity(v, |Encode(v)|))
  {
    var data := Encode(v) + rest;
    assert data[0..|Encode(v)|] == Encode(v);
    RoundTrip(data, 0, v);
  }

  function Pow128(k: nat): nat { if k == 0 then 1 else 0x80 * Pow128(k - 1) }

  lemma {:induction false} ContinuationLength(w: nat, k: nat)
    requires 1 <= w < Pow128(k)
    ensures |Continuation(w)| <= k
  {
    if w >= 0x80 {
      assert k >= 2;
      ContinuationLength(w / 0x80, k - 1);
    }
  }

  /** A quantity below 2^28 (the largest the file format allows) is encoded in
      at most four bytes; any 32-bit quantity in at most five. */
  lemma EncodeLength(v: uint32)
    ensures |Encode(v)| <= 5
    ensures v < 0x1000_0000 ==> |Encode(v)| <= 4
  {
    assert Pow128(4) == 0x1000_0000;
    if v >= 0x80 {
      ContinuationLength(v / 0x80, 4);
      if v < 0x1000_0000 {
        ContinuationLength(v / 0x80, 3);
      }
    }
  }

  lemma {:induction false} RestFailsIff(data: seq<byte>, pos: nat, acc: uint32)
    decreases |data| - pos
    ensures VarLenRest(data, pos, acc).Err? <==> forall i :: pos <= i < |data| ==> data[i] >= 0x80
  {
    if pos < |data| && data[pos] >= 0x80 {
      RestFailsIff(data, pos + 1, Accumulate(acc, data[pos]));
    }
  }

  /** read_var_len raises PrematureEOF exactly when every byte from the cursor
      to the end of the file has its top bit set, so the quantity never ends
      (no bytes at all included). */
  lemma FailsIff(data: seq<byte>, pos: nat)
    ensures VarLen(data, pos).Err? <==> forall i :: pos <= i < |data| ==> data[i] >= 0x80
  {
    if pos < |data| && data[pos] >= 0x80 {
      RestFailsIff(data, pos + 1, data[pos] % 0x80);
    }
  }

  /** What VarLen reads depends only on the bytes from the cursor on: the same
      bytes at another offset give the same value, shifted cursor. */
  lemma {:induction false} RestShift(d1: seq<byte>, p1: nat, d2: seq<byte>, p2: nat, acc: uint32)
    requires p1 <= |d1| && p2 <= |d2| && d1[p1..] == d2[p2..]
    decreases |d1| - p1
    ensures VarLenRest(d1, p1, acc).Ok? == VarLenRest(d2, p2, acc).Ok?
    ensures VarLenRest(d1, p1, acc).Ok? ==>
      VarLenRest(d1, p1, acc).value.value == VarLenRest(d2, p2, acc).value.value &&
      VarLenRest(d1, p1, acc).value.next - p1 == VarLenRest(d2, p2, acc).value.next - p2
  {
    if p1 < |d1| {
      assert d1[p1] == d1[p1..][0] == d2[p2..][0] == d2[p2];
      assert d1[p1 + 1..] == d1[p1..][1..];
      assert d2[p2 + 1..] == d2[p2..][1..];
      RestShift(d1, p1 + 1, d2, p2 + 1, Accumulate(acc, d1[p1]));
    }
  }

  lemma Shift(d1: seq<byte>, p1: nat, d2: seq<byte>, p2: nat)
    requires p1 <= |d1| && p2 <= |d2| && d1[p1..] == d2[p2..]
    ensures VarLen(d1, p1).Ok? == VarLen(d2, p2).Ok?
    ensures VarLen(d1, p1).Ok? ==>
      VarLen(d1, p1).value.value == VarLen(d2, p2).value.value &&
      VarLen(d1, p1).value.next - p1 == VarLen(d2, p2).value.next - p2
  {
    if p1 < |d1| {
      assert d1[p1] == d1[p1..][0] == d2[p2..][0] == d2[p2];
      assert d1[p1 + 1..] == d1[p1..][1..];
      assert d2[p2 + 1..] == d2[p2..][1..];
      RestShift(d1, p1 + 1, d2, p2 + 1, d1[p1] % 0x80);
    }
  }
}
