/** The edit distance `Problem::distance` measures between two note
    sequences: the least number of single-byte insertions, deletions and
    substitutions that turn one into the other (Levenshtein distance). */
module Levenshtein {
  import opened MidiBytes

  function Min3(a: nat, b: nat, c: nat): nat
  {
    if a <= b && a <= c then a else if b <= c then b else c
  }

  function Max(a: nat, b: nat): nat { if a >= b then a else b }

  /** The distance, by the first bytes: delete the first byte of `s`, insert
      the first byte of `t`, or match the two (free when equal, one
      substitution otherwise). */
  function Distance(s: seq<byte>, t: seq<byte>): nat
    decreases |s| + |t|
  {
    if |s| == 0 then |t|
    else if |t| == 0 then |s|
    else Min3(Distance(s[1..], t) + 1, Distance(s, t[1..]) + 1,
              Distance(s[1..], t[1..]) + (if s[0] == t[0] then 0 else 1))
  }

  /** A sequence is at distance 0 from itself. */
  lemma {:induction false} DistanceSelf(s: seq<byte>)
    ensures Distance(s, s) == 0
    decreases |s|
  {
    if |s| > 0 {
      DistanceSelf(s[1..]);
    }
  }

  /** Turning `s` into `t` costs as much as turning `t` into `s`. */
  lemma {:induction false} DistanceSymmetric(s: seq<byte>, t: seq<byte>)
    ensures Distance(s, t) == Distance(t, s)
    decreases |s| + |t|
  {
    if |s| > 0 && |t| > 0 {
      DistanceSymmetric(s[1..], t);
      DistanceSymmetric(s, t[1..]);
      DistanceSymmetric(s[1..], t[1..]);
    }
  }

  /** The distance is at least the difference of the lengths and at most
      the longer length. */
  lemma {:induction false} DistanceBounds(s: seq<byte>, t: seq<byte>)
    ensures Distance(s, t) <= Max(|s|, |t|)
    ensures |s| - |t| <= Distance(s, t) && |t| - |s| <= Distance(s, t)
    decreases |s| + |t|
  {
    if |s| > 0 && |t| > 0 {
      DistanceBounds(s[1..], t);
      DistanceBounds(s, t[1..]);
      DistanceBounds(s[1..], t[1..]);
    }
  }

  /** Distance 0 means the sequences are equal, and only then. */
  lemma {:induction false} DistanceZeroIff(s: seq<byte>, t: seq<byte>)
    ensures Distance(s, t) == 0 <==> s == t
    decreases |s| + |t|
  {
    if s == t {
      DistanceSelf(s);
    } else if |s| > 0 && |t| > 0 {
      DistanceZeroIff(s[1..], t[1..]);
    }
  }
}
