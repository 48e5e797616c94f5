/** The state of the machine-evolution fitness problem: the target's pattern
    evaluator, the seed machine, and the memo of fitness values per machine.
    Machines are external objects; they appear here only by identity. */
module FitnessProblem {
  import opened MidiBytes
  import opened Outcomes

  /** The identity (address) of a machine. */
  type MachineId = nat

  /** Fitness values (a `float` in the source); lower is fitter. */
  type Fitness = real

  /** The order of the note patterns the evaluator counts. */
  const PATTERN_ORDER: uint32 := 4

  /** The number of MIDI note numbers, one count each. */
  const NOTE_COUNT: nat := 128

  /** The MIDI sink that counts note patterns of the target sequence. */
  class Evaluator {
    const order: uint32
    var read: seq<char>
    var patterns: map<seq<char>, uint32>
    const counts: array<uint32>
    var nNotes: nat
    var firstNote: byte

    /** A fresh evaluator: order 4, nothing read, no patterns, every one of
        the 128 note counts zero, no notes and first note 0. */
    constructor()
      ensures order == PATTERN_ORDER && read == [] && patterns == map[]
      ensures fresh(counts) && counts.Length == NOTE_COUNT
      ensures forall i :: 0 <= i < NOTE_COUNT ==> counts[i] == 0
      ensures NNotes() == 0 && FirstNote() == 0
    {
      order := PATTERN_ORDER;
      read := [];
      patterns := map[];
      nNotes := 0;
      firstNote := 0;
      counts := new uint32[NOTE_COUNT];
      new;
      var i := 0;
      while i < NOTE_COUNT
        invariant 0 <= i <= NOTE_COUNT
        invariant forall j :: 0 <= j < i ==> counts[j] == 0
        modifies counts
      {
        counts[i] := 0;
        i := i + 1;
      }
    }

    /** `n_notes()`. */
    function NNotes(): nat
      reads this
    {
      nNotes
    }

    /** `first_note()`. */
    function FirstNote(): byte
      reads this
    {
      firstNote
    }
  }

  /** `fitness_less_than(a, b)`: the problem minimises, so `a` is fitter than
      `b` exactly when it is smaller. */
  predicate FitnessLessThan(a: Fitness, b: Fitness)
  {
    a < b
  }

  /** The ordering is a strict order: irreflexive, asymmetric, transitive, and
      any two different values are ordered one way or the other. */
  lemma FitnessOrderIsStrict(a: Fitness, b: Fitness, c: Fitness)
    ensures !FitnessLessThan(a, a)
    ensures FitnessLessThan(a, b) ==> !FitnessLessThan(b, a)
    ensures FitnessLessThan(a, b) && FitnessLessThan(b, c) ==> FitnessLessThan(a, c)
    ensures a != b ==> FitnessLessThan(a, b) || FitnessLessThan(b, a)
  {
  }

  class Problem {
    /** The evaluator run over the target MIDI file. */
    const target: Evaluator
    /** The seed machine, if any. */
    var seed: Option<MachineId>
    /** The scratch matrix of the distance computation. */
    var matrix: seq<seq<uint16>>
    /** Fitness values already computed, by machine. */
    var fitness: map<MachineId, Fitness>

    /** A problem over the given target evaluator and optional seed, with an
        empty cache and scratch matrix. */
    constructor(target: Evaluator, seed: Option<MachineId>)
      ensures this.target == target && this.seed == seed
      ensures matrix == [] && fitness == map[]
    {
      this.target := target;
      this.seed := seed;
      matrix := [];
      fitness := map[];
    }

    /** `seed(parent)`: the slot holds `parent` afterwards, whatever it held
        before; the target, the cache and the matrix are untouched. */
    method Seed(parent: Option<MachineId>)
      modifies this`seed
      ensures seed == parent
    {
      seed := parent;
    }

    /** `clear_fitness_cache()`: the memo is empty afterwards; nothing else
        changes. */
    method ClearFitnessCache()
      modifies this`fitness
      ensures fitness == map[]
    {
      fitness := map[];
    }
  }
}
