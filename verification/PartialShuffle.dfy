/** Phase 2 of bench/bench_coldhotmix.cpp: a partial Fisher-Yates shuffle picks the objects to
    free, the free loop nulls them out, and the survivors are compacted in order. */
module PartialShuffle {
  import opened Basics

  /** The numbers 0 .. n-1 in some order. */
  predicate IsPermutation(p: seq<nat>) {
    && (forall i :: 0 <= i < |p| ==> p[i] < |p|)
    && (forall i, j :: 0 <= i < j < |p| ==> p[i] != p[j])
  }

  function Swap(p: seq<nat>, i: nat, j: nat): (q: seq<nat>)
    requires i < |p| && j < |p|
    ensures |q| == |p|
  {
    p[i := p[j]][j := p[i]]
  }

  lemma SwapKeepsPermutation(p: seq<nat>, i: nat, j: nat)
    requires IsPermutation(p) && i < |p| && j < |p|
    ensures IsPermutation(Swap(p, i, j))
  {
  }

  /** The first k entries of the shuffled order: the objects to free. */
  ghost function Chosen(p: seq<nat>, k: nat): set<nat>
    requires k <= |p|
  {
    set i | 0 <= i < k :: p[i]
  }

  /** Draw i is what the generator returns for the range n - i. */
  predicate InRange(n: nat, draws: seq<nat>) {
    |draws| <= n && forall i :: 0 <= i < |draws| ==> draws[i] < n - i
  }

  /** The order after one swap per draw. */
  ghost function Shuffled(n: nat, draws: seq<nat>): (p: seq<nat>)
    requires InRange(n, draws)
    ensures |p| == n
  {
    if draws == [] then seq(n, i => i)
    else
      var m := |draws| - 1;
      Swap(Shuffled(n, draws[..m]), m, m + draws[m])
  }

  lemma {:induction false} ShuffledIsPermutation(n: nat, draws: seq<nat>)
    requires InRange(n, draws)
    ensures IsPermutation(Shuffled(n, draws))
  {
    if draws != [] {
      var m := |draws| - 1;
      ShuffledIsPermutation(n, draws[..m]);
      SwapKeepsPermutation(Shuffled(n, draws[..m]), m, m + draws[m]);
    }
  }

  /** The last draw fixes one more position and leaves those before it. */
  lemma {:induction false} LastDraw(n: nat, draws: seq<nat>, m: nat)
    requires InRange(n, draws) && |draws| == m + 1
    ensures InRange(n, draws[..m]) && m + draws[m] < n
    ensures var p := Shuffled(n, draws[..m]);
            Shuffled(n, draws)[..m] == p[..m] && Shuffled(n, draws)[m] == p[m + draws[m]]
  {
  }

  /** Different draws pick different ordered selections. */
  lemma {:induction false} DrawsDetermined(n: nat, a: seq<nat>, b: seq<nat>)
    requires InRange(n, a) && InRange(n, b) && |a| == |b|
    requires forall i :: 0 <= i < |a| ==> Shuffled(n, a)[i] == Shuffled(n, b)[i]
    ensures a == b
  {
    hide Shuffled;
    if a != [] {
      var m := |a| - 1;
      LastDraw(n, a, m);
      LastDraw(n, b, m);
      var p, q := Shuffled(n, a[..m]), Shuffled(n, b[..m]);
      forall i | 0 <= i < m ensures p[i] == q[i] {
        assert p[i] == p[..m][i] == Shuffled(n, a)[..m][i] && q[i] == q[..m][i] == Shuffled(n, b)[..m][i];
      }
      DrawsDetermined(n, a[..m], b[..m]);
      ShuffledIsPermutation(n, a[..m]);
      assert a == a[..m] + [a[m]] && b == b[..m] + [b[m]];
    }
  }

  lemma {:induction false} ChosenMore(p: seq<nat>, k: nat)
    requires IsPermutation(p) && k < |p|
    ensures p[k] !in Chosen(p, k) && Chosen(p, k + 1) == Chosen(p, k) + {p[k]}
  {
  }

  lemma {:induction false} ChosenSize(p: seq<nat>, k: nat)
    requires IsPermutation(p) && k <= |p|
    ensures |Chosen(p, k)| == k
  {
    if k > 0 {
      ChosenMore(p, k - 1);
      hide Chosen, IsPermutation;
      ChosenSize(p, k - 1);
    } else {
      assert Chosen(p, 0) == {};
    }
  }

  /** A permutation leaves out no number. */
  lemma {:induction false} PermutationHits(p: seq<nat>, x: nat) returns (j: nat)
    requires IsPermutation(p) && x < |p|
    ensures j < |p| && p[j] == x
  {
    ChosenSize(p, |p|);
    SubsetOfSameSize(Chosen(p, |p|), Window(0, |p|));
    assert x in Chosen(p, |p|);
    j :| 0 <= j < |p| && p[j] == x;
  }

  predicate IsSelection(n: nat, pick: seq<nat>) {
    (forall i :: 0 <= i < |pick| ==> pick[i] < n) && (forall i, j :: 0 <= i < j < |pick| ==> pick[i] != pick[j])
  }

  /** Every ordered selection is picked by some draws.  With `DrawsDetermined`, by exactly one:
      uniform draws pick each selection with the same probability. */
  lemma {:induction false} EverySelectionDrawn(n: nat, pick: seq<nat>) returns (draws: seq<nat>)
    requires |pick| <= n && IsSelection(n, pick)
    ensures |draws| == |pick| && InRange(n, draws)
    ensures forall i :: 0 <= i < |pick| ==> Shuffled(n, draws)[i] == pick[i]
  {
    hide Shuffled;
    draws := [];
    if pick != [] {
      var m := |pick| - 1;
      var before := EverySelectionDrawn(n, pick[..m]);
      var p := Shuffled(n, before);
      ShuffledIsPermutation(n, before);
      var j := PermutationHits(p, pick[m]);
      assert j >= m;
      draws := before + [j - m];
      assert draws[..m] == before;
      LastDraw(n, draws, m);
      forall i | 0 <= i < m ensures Shuffled(n, draws)[i] == pick[i] {
        assert Shuffled(n, draws)[i] == Shuffled(n, draws)[..m][i] == p[..m][i];
      }
    }
  }

  /** Picks k of n positions with one draw each. */
  method Pick(n: nat, k: nat, draws: seq<nat>) returns (indices: array<nat>)
    requires |draws| == k && InRange(n, draws)
    ensures fresh(indices) && indices.Length == n
    ensures indices[..] == Shuffled(n, draws) && IsPermutation(indices[..])
  {
    indices := new nat[n](i => i);
    assert indices[..] == Shuffled(n, draws[..0]);
    for i := 0 to k
      invariant indices[..] == Shuffled(n, draws[..i])
    {
      var j := i + draws[i];
      assert draws[..i + 1][..i] == draws[..i];
      ghost var before := indices[..];
      indices[i], indices[j] := indices[j], indices[i];
      assert indices[..] == Swap(before, i, j);
    }
    assert draws[..k] == draws;
    ShuffledIsPermutation(n, draws);
  }

  /** The objects at positions outside `gone`, in order, leaving out nulls. */
  ghost function Kept(objects: seq<nat>, gone: set<nat>): seq<nat> {
    if objects == [] then []
    else
      var m := |objects| - 1;
      Kept(objects[..m], gone) + if m in gone || objects[m] == 0 then [] else [objects[m]]
  }

  lemma {:induction false} KeptAll(objects: seq<nat>)
    requires forall i :: 0 <= i < |objects| ==> objects[i] != 0
    ensures Kept(objects, {}) == objects
  {
    if objects != [] {
      KeptAll(objects[..|objects| - 1]);
    }
  }

  /** How many times `v` occurs in `s`. */
  ghost function Times(s: seq<nat>, v: nat): nat {
    if s == [] then 0 else Times(s[..|s| - 1], v) + if s[|s| - 1] == v then 1 else 0
  }

  lemma TimesSnoc(s: seq<nat>, x: nat, v: nat)
    ensures Times(s + [x], v) == Times(s, v) + if x == v then 1 else 0
  {
    assert (s + [x])[..|s|] == s;
  }

  lemma KeptStep(objects: seq<nat>, gone: set<nat>, m: nat, v: nat)
    requires m + 1 == |objects|
    ensures |Kept(objects, gone)| == |Kept(objects[..m], gone)| + if m in gone || objects[m] == 0 then 0 else 1
    ensures Times(Kept(objects, gone), v) ==
            Times(Kept(objects[..m], gone), v) + if m in gone || objects[m] == 0 || objects[m] != v then 0 else 1
  {
    if m in gone || objects[m] == 0 {
      assert Kept(objects, gone) == Kept(objects[..m], gone);
    } else {
      TimesSnoc(Kept(objects[..m], gone), objects[m], v);
    }
  }

  lemma {:induction false} KeptIgnores(objects: seq<nat>, gone: set<nat>, i: nat)
    requires |objects| <= i
    ensures Kept(objects, gone) == Kept(objects, gone + {i})
  {
    if objects != [] {
      KeptIgnores(objects[..|objects| - 1], gone, i);
    }
  }

  /** Freeing one more position takes exactly that object from the survivors. */
  lemma {:induction false} KeptLoses(objects: seq<nat>, gone: set<nat>, i: nat, v: nat)
    requires i < |objects| && i !in gone && objects[i] != 0
    ensures |Kept(objects, gone)| == |Kept(objects, gone + {i})| + 1
    ensures Times(Kept(objects, gone), v) == Times(Kept(objects, gone + {i}), v) + if objects[i] == v then 1 else 0
  {
    var m := |objects| - 1;
    hide Kept, Times;
    KeptStep(objects, gone, m, v);
    KeptStep(objects, gone + {i}, m, v);
    if i < m {
      KeptLoses(objects[..m], gone, i, v);
    } else {
      KeptIgnores(objects[..m], gone, i);
    }
  }

  ghost function Freed(objects: seq<nat>, p: seq<nat>, k: nat): seq<nat>
    requires IsPermutation(p) && |p| == |objects| && k <= |p|
  {
    seq(k, i requires 0 <= i < k => objects[p[i]])
  }

  lemma OneMore(objects: seq<nat>, p: seq<nat>, k: nat)
    requires IsPermutation(p) && |p| == |objects| && k < |p|
    ensures p[k] !in Chosen(p, k) && Chosen(p, k + 1) == Chosen(p, k) + {p[k]}
    ensures Freed(objects, p, k + 1) == Freed(objects, p, k) + [objects[p[k]]]
  {
  }

  /** Conservation: every object is freed once or survives. */
  lemma {:induction false} FreedOrKept(objects: seq<nat>, p: seq<nat>, k: nat, v: nat)
    requires IsPermutation(p) && |p| == |objects| && k <= |p|
    requires forall i :: 0 <= i < |objects| ==> objects[i] != 0
    ensures |Kept(objects, Chosen(p, k))| == |objects| - k
    ensures Times(Freed(objects, p, k), v) + Times(Kept(objects, Chosen(p, k)), v) == Times(objects, v)
  {
    if k == 0 {
      KeptAll(objects);
      assert Chosen(p, 0) == {};
    } else {
      hide Kept, Times, Chosen, Freed;
      FreedOrKept(objects, p, k - 1, v);
      OneMore(objects, p, k - 1);
      KeptLoses(objects, Chosen(p, k - 1), p[k - 1], v);
      TimesSnoc(Freed(objects, p, k - 1), objects[p[k - 1]], v);
    }
  }

  /** Nulling the freed positions and dropping nulls keeps what was not freed. */
  lemma {:induction false} KeptAfterNulling(objects: seq<nat>, nulled: seq<nat>, gone: set<nat>)
    requires |nulled| == |objects|
    requires forall i :: 0 <= i < |objects| ==> nulled[i] == if i in gone then 0 else objects[i]
    ensures Kept(nulled, {}) == Kept(objects, gone)
  {
    if objects != [] {
      var m := |objects| - 1;
      KeptAfterNulling(objects[..m], nulled[..m], gone);
    }
  }

  /** Frees the chosen objects; returns what was passed to free, in order. */
  method FreeChosen(objects: array<nat>, indices: array<nat>, k: nat) returns (freed: seq<nat>)
    requires indices.Length == objects.Length && k <= indices.Length && IsPermutation(indices[..]) && indices != objects
    modifies objects
    ensures freed == Freed(old(objects[..]), indices[..], k)
    ensures forall i :: 0 <= i < objects.Length ==>
              objects[i] == if i in Chosen(indices[..], k) then 0 else old(objects[i])
  {
    freed := [];
    for i := 0 to k
      invariant freed == Freed(old(objects[..]), indices[..], i)
      invariant forall j :: 0 <= j < objects.Length ==>
                  objects[j] == if j in Chosen(indices[..], i) then 0 else old(objects[j])
    {
      assert Chosen(indices[..], i + 1) == Chosen(indices[..], i) + {indices[i]};
      assert indices[i] !in Chosen(indices[..], i);
      freed := freed + [objects[indices[i]]];
      objects[indices[i]] := 0;
    }
  }

  method Compact(objects: array<nat>) returns (survivors: seq<nat>)
    ensures survivors == Kept(objects[..], {})
  {
    survivors := [];
    for i := 0 to objects.Length
      invariant survivors == Kept(objects[..i], {})
    {
      assert objects[..i + 1][..i] == objects[..i];
      if objects[i] != 0 {
        survivors := survivors + [objects[i]];
      }
    }
    assert objects[..objects.Length] == objects[..];
  }

  /** The whole phase, for any draws: the objects at k different positions are freed and nulled,
      the survivors are the others in their original order, and nothing is lost or freed twice. */
  method FreeSome(objects: array<nat>, k: nat, draws: seq<nat>)
    returns (survivors: seq<nat>, freed: seq<nat>, ghost order: seq<nat>)
    requires |draws| == k && InRange(objects.Length, draws)
    modifies objects
    ensures order == Shuffled(objects.Length, draws) && IsPermutation(order)
    ensures freed == Freed(old(objects[..]), order, k)
    ensures survivors == Kept(old(objects[..]), Chosen(order, k))
    ensures forall i :: 0 <= i < objects.Length ==>
              objects[i] == if i in Chosen(order, k) then 0 else old(objects[i])
    ensures (forall i :: 0 <= i < objects.Length ==> old(objects[i]) != 0) ==>
              && |survivors| == objects.Length - k
              && forall v :: Times(freed, v) + Times(survivors, v) == Times(old(objects[..]), v)
  {
    ghost var was := objects[..];
    var indices := Pick(objects.Length, k, draws);
    order := indices[..];
    freed := FreeChosen(objects, indices, k);
    survivors := Compact(objects);
    KeptAfterNulling(was, objects[..], Chosen(order, k));
    if forall i :: 0 <= i < |was| ==> was[i] != 0 {
      FreedOrKept(was, order, k, 0);
      forall v {
        FreedOrKept(was, order, k, v);
      }
    }
  }

  /** Draw i is what the generator returns for the range i + 1. */
  predicate Deals(n: nat, draws: seq<nat>) {
    |draws| == n && forall i :: 0 <= i < n ==> draws[i] <= i
  }

  /** The order after the swaps of the backward shuffle for positions `from` and up. */
  ghost function Dealt(n: nat, draws: seq<nat>, from: nat): (p: seq<nat>)
    requires Deals(n, draws) && from <= n
    ensures |p| == n
    decreases n - from
  {
    if from == n then seq(n, i => i) else Swap(Dealt(n, draws, from + 1), from, draws[from])
  }

  lemma {:induction false} DealtIsPermutation(n: nat, draws: seq<nat>, from: nat)
    requires Deals(n, draws) && from <= n
    ensures IsPermutation(Dealt(n, draws, from))
    decreases n - from
  {
    if from < n {
      DealtIsPermutation(n, draws, from + 1);
      SwapKeepsPermutation(Dealt(n, draws, from + 1), from, draws[from]);
    }
  }

  /** The swap for position `from` settles it and leaves the positions behind it. */
  lemma {:induction false} DealtSettles(n: nat, draws: seq<nat>, from: nat)
    requires Deals(n, draws) && from < n
    ensures var p, before := Dealt(n, draws, from), Dealt(n, draws, from + 1);
            p[from] == before[draws[from]] && forall k :: from < k < n ==> p[k] == before[k]
  {
    var before := Dealt(n, draws, from + 1);
    assert Dealt(n, draws, from) == Swap(before, from, draws[from]);
  }

  /** Different draws deal different orders. */
  lemma {:induction false} DealDetermined(n: nat, a: seq<nat>, b: seq<nat>, from: nat)
    requires Deals(n, a) && Deals(n, b) && from <= n
    requires forall k :: from <= k < n ==> Dealt(n, a, from)[k] == Dealt(n, b, from)[k]
    ensures a[from..] == b[from..] && Dealt(n, a, from) == Dealt(n, b, from)
    decreases n - from
  {
    if from < n {
      DealtSettles(n, a, from);
      DealtSettles(n, b, from);
      var p, q := Dealt(n, a, from + 1), Dealt(n, b, from + 1);
      forall k | from + 1 <= k < n ensures p[k] == q[k] {
        assert Dealt(n, a, from)[k] == Dealt(n, b, from)[k];
      }
      DealDetermined(n, a, b, from + 1);
      DealtIsPermutation(n, a, from + 1);
      assert p[a[from]] == p[b[from]];
      assert a[from..] == [a[from]] + a[from + 1..] && b[from..] == [b[from]] + b[from + 1..];
    }
  }

  /** The draws of earlier positions do not matter yet. */
  lemma {:induction false} DealtLocal(n: nat, a: seq<nat>, b: seq<nat>, from: nat)
    requires Deals(n, a) && Deals(n, b) && from <= n && a[from..] == b[from..]
    ensures Dealt(n, a, from) == Dealt(n, b, from)
    decreases n - from
  {
    if from < n {
      assert a[from + 1..] == a[from..][1..] && b[from + 1..] == b[from..][1..];
      assert a[from] == a[from..][0] && b[from] == b[from..][0];
      DealtLocal(n, a, b, from + 1);
    }
  }

  /** Every order is dealt by some draws.  With `DealDetermined`, by exactly one. */
  lemma {:induction false} EveryOrderDealt(n: nat, order: seq<nat>, from: nat) returns (draws: seq<nat>)
    requires IsPermutation(order) && |order| == n && from <= n
    ensures Deals(n, draws) && forall k :: from <= k < n ==> Dealt(n, draws, from)[k] == order[k]
    decreases n - from
  {
    if from == n {
      draws := seq(n, _ => 0);
    } else {
      var later := EveryOrderDealt(n, order, from + 1);
      var p := Dealt(n, later, from + 1);
      DealtIsPermutation(n, later, from + 1);
      var j := PermutationHits(p, order[from]);
      assert j <= from;
      draws := later[from := j];
      assert draws[from + 1..] == later[from + 1..];
      DealtLocal(n, draws, later, from + 1);
      DealtSettles(n, draws, from);
    }
  }

  /** The full shuffle that deals Zipf ranks to survivors: every rank is dealt once. */
  method DealRanks(n: nat, draws: seq<nat>) returns (rankOf: array<nat>)
    requires Deals(n, draws)
    ensures fresh(rankOf) && rankOf.Length == n
    ensures rankOf[..] == Dealt(n, draws, 0) && IsPermutation(rankOf[..])
  {
    rankOf := new nat[n](i => i);
    var i := n;
    assert rankOf[..] == Dealt(n, draws, n);
    while i > 1
      invariant i <= n && (n > 0 ==> i >= 1) && rankOf[..] == Dealt(n, draws, i)
    {
      var j := draws[i - 1];
      ghost var before := rankOf[..];
      rankOf[i - 1], rankOf[j] := rankOf[j], rankOf[i - 1];
      assert rankOf[..] == Swap(before, i - 1, j);
      i := i - 1;
    }
    assert n > 0 ==> Dealt(n, draws, 0) == Swap(Dealt(n, draws, 1), 0, 0);
    DealtIsPermutation(n, draws, 0);
  }
}
