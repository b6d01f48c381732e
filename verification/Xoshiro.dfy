/** The generators of bench/bench_coldhotmix.cpp: xoshiro256** and splitmix64, on 64-bit words. */
module Xoshiro {

  datatype State = State(s0: bv64, s1: bv64, s2: bv64, s3: bv64)

  const ZERO := State(0, 0, 0, 0)

  function X(a: bv64, b: bv64): bv64 { a ^ b }
  function Shl17(a: bv64): bv64 { a << 17 }
  function Rotl45(a: bv64): bv64 { (a << 45) | (a >> 19) }
  function Rotl19(a: bv64): bv64 { (a << 19) | (a >> 45) }

  /** The state update of rng_next, assignment by assignment. */
  function Step(s: State): State {
    var t := Shl17(s.s1);
    var s2 := X(s.s2, s.s0);
    var s3 := X(s.s3, s.s1);
    var s1 := X(s.s1, s2);
    var s0 := X(s.s0, s3);
    State(s0, s1, X(s2, t), Rotl45(s3))
  }

  /** x ^ (x << 17), and what solves it for x. */
  function Fold17(x: bv64): bv64 { x ^ (x << 17) }
  function Unfold17(y: bv64): bv64 { y ^ (y << 17) ^ (y << 34) ^ (y << 51) }

  function Unstep(s: State): State {
    var s3 := Rotl19(s.s3);
    var s0 := X(s.s0, s3);
    var s1 := Unfold17(X(s.s1, s.s2));
    var s2 := X(s.s1, s1);
    State(s0, s1, X(s2, s0), X(s3, s1))
  }

  lemma Cancel(a: bv64, b: bv64)
    ensures X(X(a, b), b) == a && X(X(a, b), a) == b && X(b, X(a, b)) == a && X(a, X(a, b)) == b
  {
  }

  lemma Regroup(a: bv64, b: bv64, c: bv64)
    ensures X(X(a, b), X(b, c)) == X(a, c) && X(X(a, b), c) == X(a, X(b, c))
  {
  }

  lemma FoldIsRawX(x: bv64)
    ensures Fold17(x) == X(x, x << 17)
  {
  }

  lemma FoldIsX(x: bv64)
    ensures Fold17(x) == X(x, Shl17(x))
  {
    FoldIsRawX(x);
    hide X, Fold17;
  }

  lemma RotationsUndo(x: bv64)
    ensures Rotl19(Rotl45(x)) == x && Rotl45(Rotl19(x)) == x
  {
  }

  lemma FoldRaw(x: bv64)
    ensures Unfold17(x ^ (x << 17)) == x && Fold17(x ^ (x << 17) ^ (x << 34) ^ (x << 51)) == x
  {
  }

  lemma FoldsUndo(x: bv64)
    ensures Unfold17(Fold17(x)) == x && Fold17(Unfold17(x)) == x
  {
    FoldRaw(x);
    assert Unfold17(Fold17(x)) == x by {
      hide Unfold17;
    }
    hide Fold17;
  }

  lemma UnstepUndoes(s: State)
    ensures Unstep(Step(s)) == s
  {
    hide X, Shl17, Rotl45, Rotl19, Fold17, Unfold17;
    var q, p := X(s.s2, s.s0), X(s.s3, s.s1);
    RotationsUndo(p);
    Cancel(s.s0, p);
    Regroup(s.s1, q, Shl17(s.s1));
    FoldIsX(s.s1);
    FoldsUndo(s.s1);
    Cancel(s.s1, q);
    Cancel(s.s2, s.s0);
    Cancel(s.s3, s.s1);
  }

  lemma StepUndoes(s: State)
    ensures Step(Unstep(s)) == s
  {
    hide X, Shl17, Rotl45, Rotl19, Fold17, Unfold17;
    var r, y := Rotl19(s.s3), X(s.s1, s.s2);
    var x := Unfold17(y);
    RotationsUndo(s.s3);
    FoldsUndo(y);
    FoldIsX(x);
    Cancel(X(s.s1, x), X(s.s0, r));
    Cancel(r, x);
    Cancel(s.s0, r);
    Cancel(s.s1, x);
    Regroup(s.s1, x, Shl17(x));
    Cancel(s.s1, s.s2);
  }

  /** The step is a bijection on states: it has a two-sided inverse. */
  lemma StepIsBijective(s: State)
    ensures Unstep(Step(s)) == s && Step(Unstep(s)) == s
  {
    hide Step, Unstep;
    UnstepUndoes(s);
    StepUndoes(s);
  }

  function Run(s: State, n: nat): State {
    if n == 0 then s else Step(Run(s, n - 1))
  }

  /** Only the zero state steps to zero. */
  lemma OnlyZeroStepsToZero(s: State)
    requires Step(s) == ZERO
    ensures s == ZERO
  {
    StepIsBijective(s);
    assert Unstep(ZERO) == ZERO;
    hide Step, Unstep;
  }

  /** A nonzero state never reaches zero. */
  lemma {:induction false} NeverZero(s: State, n: nat)
    requires s != ZERO
    ensures Run(s, n) != ZERO
  {
    hide Step;
    if n > 0 {
      NeverZero(s, n - 1);
      if Step(Run(s, n - 1)) == ZERO {
        OnlyZeroStepsToZero(Run(s, n - 1));
      }
    }
  }

  /** Two runs that meet have been one run all along. */
  lemma {:induction false} RunsNeverMerge(a: State, b: State, n: nat)
    requires Run(a, n) == Run(b, n)
    ensures a == b
  {
    hide Step, Unstep;
    if n > 0 {
      StepIsBijective(Run(a, n - 1));
      StepIsBijective(Run(b, n - 1));
      RunsNeverMerge(a, b, n - 1);
    }
  }

  function Rotl7(x: bv64): bv64 { (x << 7) | (x >> 57) }
  function Rotr7(x: bv64): bv64 { (x >> 7) | (x << 57) }
  function Times5(x: bv64): bv64 { x * 5 }
  function Times9(x: bv64): bv64 { x * 9 }
  function Untimes5(y: bv64): bv64 { y * 0xCCCCCCCCCCCCCCCD }
  function Untimes9(y: bv64): bv64 { y * 0x8E38E38E38E38E39 }

  /** The result of rng_next, a scrambling of the second word. */
  function Output(s1: bv64): bv64 { Times9(Rotl7(Times5(s1))) }
  function Unoutput(y: bv64): bv64 { Untimes5(Rotr7(Untimes9(y))) }

  lemma ScramblesUndo(x: bv64)
    ensures Untimes5(x * 5) == x && Untimes9(x * 9) == x && Rotr7((x << 7) | (x >> 57)) == x
    ensures Times5(x * 0xCCCCCCCCCCCCCCCD) == x && Times9(x * 0x8E38E38E38E38E39) == x
    ensures Rotl7((x >> 7) | (x << 57)) == x
  {
  }

  lemma ScramblesInvert(x: bv64)
    ensures Untimes5(Times5(x)) == x && Untimes9(Times9(x)) == x && Rotr7(Rotl7(x)) == x
  {
    hide Untimes5, Untimes9, Rotr7;
    ScramblesUndo(x);
  }

  lemma UnscramblesInvert(x: bv64)
    ensures Times5(Untimes5(x)) == x && Times9(Untimes9(x)) == x && Rotl7(Rotr7(x)) == x
  {
    hide Times5, Times9, Rotl7;
    ScramblesUndo(x);
  }

  /** The result is a bijection of the second word. */
  lemma OutputIsBijective(x: bv64)
    ensures Unoutput(Output(x)) == x && Output(Unoutput(x)) == x
  {
    hide Times5, Times9, Rotl7, Untimes5, Untimes9, Rotr7;
    ScramblesInvert(x);
    ScramblesInvert(Times5(x));
    ScramblesInvert(Rotl7(Times5(x)));
    UnscramblesInvert(x);
    UnscramblesInvert(Untimes9(x));
    UnscramblesInvert(Rotr7(Untimes9(x)));
  }

  /** The first results from the state 1, 2, 3, 4, as published for xoshiro256**. */
  lemma KnownOutputs()
    ensures var s := State(1, 2, 3, 4);
            && Output(s.s1) == 11520 && Output(Step(s).s1) == 0 && Output(Step(Step(s)).s1) == 1509978240
            && Output(Step(Step(Step(s))).s1) == 1215971899390074240
  {
    assert Step(State(1, 2, 3, 4)) == State(7, 0, 0x40002, 0xC00000000000);
    assert Step(State(7, 0, 0x40002, 0xC00000000000)) == State(0xC00000000007, 0x40005, 0x40005, 0x18000000);
    assert Step(State(0xC00000000007, 0x40005, 0x40005, 0x18000000)) ==
           State(0xC00018040002, 0xC00000000007, 0xC008000E0002, 0x8000A00000000300);
  }

  /** The generator as the source keeps it: four words updated in place. */
  class Generator {
    var s0: bv64
    var s1: bv64
    var s2: bv64
    var s3: bv64

    ghost function Words(): State
      reads this
    {
      State(s0, s1, s2, s3)
    }

    constructor (seed: State)
      ensures Words() == seed
    {
      s0, s1, s2, s3 := seed.s0, seed.s1, seed.s2, seed.s3;
    }

    /** rng_next: a nonzero state stays nonzero. */
    method Next() returns (result: bv64)
      modifies this
      ensures Words() == Step(old(Words())) && result == Output(old(s1)) && Unoutput(result) == old(s1)
      ensures old(Words()) != ZERO ==> Words() != ZERO
    {
      OutputIsBijective(s1);
      hide Rotl7, Times5, Times9, X, Shl17, Rotl45, Unoutput;
      result := Times9(Rotl7(Times5(s1)));
      var t := Shl17(s1);
      s2 := X(s2, s0);
      s3 := X(s3, s1);
      s1 := X(s1, s2);
      s0 := X(s0, s3);
      s2 := X(s2, t);
      s3 := Rotl45(s3);
      assert Words() == Step(old(Words()));
      if Words() == ZERO {
        OnlyZeroStepsToZero(old(Words()));
      }
    }
  }

  // -------------------------------------------------------------- splitmix64

  function Xor30(z: bv64): bv64 { z ^ (z >> 30) }
  function Xor27(z: bv64): bv64 { z ^ (z >> 27) }
  function Xor31(z: bv64): bv64 { z ^ (z >> 31) }
  function Times1(z: bv64): bv64 { z * 0xBF58476D1CE4E5B9 }
  function Times2(z: bv64): bv64 { z * 0x94D049BB133111EB }

  /** The output computed from an advanced state. */
  function Mix(z: bv64): bv64 { Xor31(Times2(Xor27(Times1(Xor30(z))))) }

  /** splitmix64: the advanced state and the output. */
  function SplitMix(state: bv64): (bv64, bv64) {
    (state + 0x9E3779B97F4A7C15, Mix(state + 0x9E3779B97F4A7C15))
  }

  function Unxor30(y: bv64): bv64 { y ^ (y >> 30) ^ (y >> 60) }
  function Unxor27(y: bv64): bv64 { y ^ (y >> 27) ^ (y >> 54) }
  function Unxor31(y: bv64): bv64 { y ^ (y >> 31) ^ (y >> 62) }
  function Untimes1(y: bv64): bv64 { y * 0x96DE1B173F119089 }
  function Untimes2(y: bv64): bv64 { y * 0x319642B2D24D8EC3 }

  function Unmix(y: bv64): bv64 { Unxor30(Untimes1(Unxor27(Untimes2(Unxor31(y))))) }

  /** Shifted exclusive ors can be solved; the multipliers are odd, so they have inverses modulo 2^64. */
  lemma PartsUndo(z: bv64)
    ensures Unxor30(z ^ (z >> 30)) == z && Unxor27(z ^ (z >> 27)) == z && Unxor31(z ^ (z >> 31)) == z
    ensures Untimes1(z * 0xBF58476D1CE4E5B9) == z && Untimes2(z * 0x94D049BB133111EB) == z
    ensures Xor30(z ^ (z >> 30) ^ (z >> 60)) == z && Xor27(z ^ (z >> 27) ^ (z >> 54)) == z
    ensures Xor31(z ^ (z >> 31) ^ (z >> 62)) == z
    ensures Times1(z * 0x96DE1B173F119089) == z && Times2(z * 0x319642B2D24D8EC3) == z
  {
  }

  lemma PartsInvert(z: bv64)
    ensures Unxor30(Xor30(z)) == z && Unxor27(Xor27(z)) == z && Unxor31(Xor31(z)) == z
    ensures Untimes1(Times1(z)) == z && Untimes2(Times2(z)) == z
  {
    hide Unxor30, Unxor27, Unxor31, Untimes1, Untimes2;
    PartsUndo(z);
  }

  lemma InversesInvert(z: bv64)
    ensures Xor30(Unxor30(z)) == z && Xor27(Unxor27(z)) == z && Xor31(Unxor31(z)) == z
    ensures Times1(Untimes1(z)) == z && Times2(Untimes2(z)) == z
  {
    hide Xor30, Xor27, Xor31, Times1, Times2;
    PartsUndo(z);
  }

  /** The output map is a bijection on 64-bit words. */
  lemma MixIsBijective(z: bv64)
    ensures Unmix(Mix(z)) == z && Mix(Unmix(z)) == z
  {
    hide Xor30, Xor27, Xor31, Times1, Times2, Unxor30, Unxor27, Unxor31, Untimes1, Untimes2;
    PartsInvert(z);
    PartsInvert(Xor30(z));
    PartsInvert(Times1(Xor30(z)));
    PartsInvert(Xor27(Times1(Xor30(z))));
    PartsInvert(Times2(Xor27(Times1(Xor30(z)))));
    InversesInvert(z);
    InversesInvert(Unxor31(z));
    InversesInvert(Untimes2(Unxor31(z)));
    InversesInvert(Unxor27(Untimes2(Unxor31(z))));
    InversesInvert(Untimes1(Unxor27(Untimes2(Unxor31(z)))));
  }

  /** Different states give different outputs. */
  lemma DistinctOutputs(a: bv64, b: bv64)
    requires a != b
    ensures SplitMix(a).1 != SplitMix(b).1
  {
    hide Mix, Unmix;
    MixIsBijective(a + 0x9E3779B97F4A7C15);
    MixIsBijective(b + 0x9E3779B97F4A7C15);
  }

  /** The first output from the state 0, as published for splitmix64. */
  lemma KnownMix()
    ensures SplitMix(0).1 == 0xE220A8397B1DCDAF
  {
    assert Times1(Xor30(0x9E3779B97F4A7C15)) == 0x6F68261B57E7A770;
    assert Times2(Xor27(0x6F68261B57E7A770)) == 0xE220A838BF5C9DDE;
  }

  function Up(c: bv64): bv64 { c + 1 }

  /** n as a 64-bit counter holds it. */
  function Counter(n: nat): bv64 {
    if n == 0 then 0 else Up(Counter(n - 1))
  }

  function StateAfter(seed: bv64, n: nat): bv64 {
    if n == 0 then seed else SplitMix(StateAfter(seed, n - 1)).0
  }

  /** The seed plus c times the increment. */
  function Ahead(seed: bv64, c: bv64): bv64 { seed + c * 0x9E3779B97F4A7C15 }

  lemma AheadStarts(seed: bv64)
    ensures Ahead(seed, 0) == seed
  {
  }

  lemma AheadOnce(seed: bv64, c: bv64)
    ensures Ahead(seed, c + 1) == Ahead(seed, c) + 0x9E3779B97F4A7C15
  {
  }

  lemma AheadGrows(seed: bv64, c: bv64)
    ensures Ahead(seed, Up(c)) == SplitMix(Ahead(seed, c)).0
  {
    hide Mix, Ahead;
    AheadOnce(seed, c);
  }

  /** n calls advance the state by n times the increment. */
  lemma {:induction false} Advances(seed: bv64, n: nat)
    ensures StateAfter(seed, n) == Ahead(seed, Counter(n))
  {
    hide Up, Ahead, SplitMix;
    if n > 0 {
      Advances(seed, n - 1);
      AheadGrows(seed, Counter(n - 1));
    } else {
      AheadStarts(seed);
    }
  }

  /** The increment is odd, so its multiple can be told from the state. */
  function Multiple(seed: bv64, state: bv64): bv64 { (state - seed) * 0xF1DE83E19937733D }

  lemma MultipleOfSum(seed: bv64, c: bv64)
    ensures Multiple(seed, seed + c * 0x9E3779B97F4A7C15) == c
  {
  }

  lemma MultipleIs(seed: bv64, c: bv64)
    ensures Multiple(seed, Ahead(seed, c)) == c
  {
    hide Multiple;
    MultipleOfSum(seed, c);
  }

  /** The state, and with it the output, repeats exactly when a 64-bit counter does. */
  lemma {:induction false} FullPeriod(seed: bv64, m: nat, n: nat)
    ensures StateAfter(seed, m) == StateAfter(seed, n) <==> Counter(m) == Counter(n)
    ensures SplitMix(StateAfter(seed, m)).1 == SplitMix(StateAfter(seed, n)).1 <==> Counter(m) == Counter(n)
  {
    hide *;
    Advances(seed, m);
    Advances(seed, n);
    MultipleIs(seed, Counter(m));
    MultipleIs(seed, Counter(n));
    if StateAfter(seed, m) != StateAfter(seed, n) {
      DistinctOutputs(StateAfter(seed, m), StateAfter(seed, n));
    }
  }

  class Seeded {
    var state: bv64

    constructor (seed: bv64)
      ensures state == seed
    {
      state := seed;
    }

    /** splitmix64: advances the state and mixes it into the output. */
    method Next() returns (out: bv64)
      modifies this
      ensures (state, out) == SplitMix(old(state)) && Unmix(out) == state
    {
      hide Xor30, Xor27, Xor31, Times1, Times2, Unmix;
      state := state + 0x9E3779B97F4A7C15;
      var z := state;
      z := Times1(Xor30(z));
      z := Times2(Xor27(z));
      out := Xor31(z);
      MixIsBijective(state);
    }
  }
}
