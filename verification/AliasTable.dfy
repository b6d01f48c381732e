/** Walker's alias method (bench/bench_zipf_reaccess.cpp), over exact reals.

    `Build` shares out the scaled weights between two worklists until every index
    has been finalised.  The main result is conservation of mass: whatever the
    weights, column sampling from the finished table draws each index with exactly
    its share of the total weight. */
module AliasTable {

  datatype Table = Table(prob: seq<real>, alias: seq<nat>) {
    predicate WellFormed() {
      |prob| == |alias| && forall j :: 0 <= j < |alias| ==> alias[j] < |alias|
    }
  }

  // -------------------------------------------------------------- sums

  function Sum(q: seq<real>): real {
    if q == [] then 0.0 else Sum(q[..|q| - 1]) + q[|q| - 1]
  }

  lemma {:induction false} SumUpdate(q: seq<real>, k: nat, v: real)
    requires k < |q|
    ensures Sum(q[k := v]) == Sum(q) - q[k] + v
  {
    var m := |q| - 1;
    if k == m {
      assert q[k := v][..m] == q[..m];
    } else {
      assert q[k := v][..m] == q[..m][k := v];
      SumUpdate(q[..m], k, v);
    }
  }

  lemma {:induction false} SumNonNegative(q: seq<real>)
    requires forall j :: 0 <= j < |q| ==> q[j] >= 0.0
    ensures Sum(q) >= 0.0
  {
    if q != [] {
      SumNonNegative(q[..|q| - 1]);
    }
  }

  /** Terms that are nonnegative and sum to zero are all zero. */
  lemma {:induction false} SumZero(q: seq<real>, k: nat)
    requires forall j :: 0 <= j < |q| ==> q[j] >= 0.0
    requires Sum(q) <= 0.0
    requires k < |q|
    ensures q[k] == 0.0
  {
    var m := |q| - 1;
    SumNonNegative(q[..m]);
    if k < m {
      SumZero(q[..m], k);
    }
  }

  lemma {:induction false} SumNonPositive(q: seq<real>)
    requires forall j :: 0 <= j < |q| ==> q[j] <= 0.0
    ensures Sum(q) <= 0.0
  {
    if q != [] {
      SumNonPositive(q[..|q| - 1]);
    }
  }

  /** A sum of terms that are all negative is zero only when there are none. */
  lemma {:induction false} SumNegative(q: seq<real>, k: nat)
    requires forall j :: 0 <= j < |q| ==> q[j] <= 0.0
    requires k < |q| && q[k] < 0.0
    ensures Sum(q) < 0.0
  {
    var m := |q| - 1;
    SumNonPositive(q[..m]);
    if k < m {
      SumNegative(q[..m], k);
    }
  }

  // -------------------------------------------------------------- the distribution promised

  /** What an index of weight w is owed; with c == n / total the mean over all indices is one. */
  function Owed(w: real, c: real): real { w * c }

  function Scaled(w: seq<real>, c: real): (r: seq<real>) {
    seq(|w|, i requires 0 <= i < |w| => Owed(w[i], c))
  }

  function Factor(w: seq<real>): real
    requires Sum(w) != 0.0
  {
    |w| as real / Sum(w)
  }

  lemma {:induction false} Distribute(a: real, b: real, c: real)
    ensures Owed(a + b, c) == Owed(a, c) + Owed(b, c)
  {
  }

  lemma {:induction false} SumScaledBy(w: seq<real>, c: real)
    ensures Sum(Scaled(w, c)) == Owed(Sum(w), c)
  {
    if w != [] {
      var m := |w| - 1;
      SumScaledBy(w[..m], c);
      assert Scaled(w, c)[..m] == Scaled(w[..m], c);
      Distribute(Sum(w[..m]), w[m], c);
    }
  }

  lemma {:induction false} Cancel(a: real, b: real)
    requires b != 0.0
    ensures Owed(b, a / b) == a
  {
  }

  /** The scaled weights average one. */
  lemma {:induction false} SumScaled(w: seq<real>)
    requires Sum(w) != 0.0
    ensures Sum(Scaled(w, Factor(w))) == |w| as real
  {
    SumScaledBy(w, Factor(w));
    Cancel(|w| as real, Sum(w));
  }

  /** One draw: `column` is uniform over the indices and `u` over [0, 1). */
  function Sample(t: Table, column: nat, u: real): nat
    requires t.WellFormed() && column < |t.prob|
  {
    if u < t.prob[column] then column else t.alias[column]
  }

  /** Mass that the columns aliased to i hand over to it. */
  function Handed(t: Table, i: nat): seq<real>
    requires t.WellFormed()
  {
    seq(|t.prob|, j requires 0 <= j < |t.prob| => if t.alias[j] == i then 1.0 - t.prob[j] else 0.0)
  }

  /** Length of the set of u in [0, 1) for which column j draws i. */
  function ColumnMass(t: Table, j: nat, i: nat): real
    requires t.WellFormed() && j < |t.prob|
  {
    (if j == i then t.prob[j] else 0.0) + (if t.alias[j] == i then 1.0 - t.prob[j] else 0.0)
  }

  predicate Between(lo: real, hi: real) { 0.0 <= lo <= hi <= 1.0 }

  /** `ColumnMass` really measures the draw: the u drawing i form one half-open interval of that length. */
  lemma {:induction false} ColumnMassMeasuresSample(t: Table, j: nat, i: nat)
    requires t.WellFormed() && j < |t.prob| && 0.0 <= t.prob[j] <= 1.0
    ensures exists lo: real, hi: real {:trigger Between(lo, hi)} :: Between(lo, hi) && hi - lo == ColumnMass(t, j, i)
              && forall u: real {:trigger Sample(t, j, u)} :: 0.0 <= u < 1.0 ==>
                   (Sample(t, j, u) == i <==> lo <= u < hi)
  {
    var lo := if j == i then 0.0 else t.prob[j];
    var hi := if t.alias[j] == i then 1.0 else if j == i then t.prob[j] else lo;
    assert Between(lo, hi);
  }

  function ColumnMasses(t: Table, i: nat): seq<real>
    requires t.WellFormed()
  {
    seq(|t.prob|, j requires 0 <= j < |t.prob| => ColumnMass(t, j, i))
  }

  /** Over all n columns index i collects w[i] * c: with c == n / total, each draw is i with probability
      w[i] / total. */
  ghost predicate Exact(t: Table, w: seq<real>, c: real) {
    && t.WellFormed() && |t.prob| == |w|
    && forall i :: 0 <= i < |w| ==> Sum(ColumnMasses(t, i)) == Owed(w[i], c)
  }

  lemma {:induction false} ColumnMassesPrefix(t: Table, i: nat, k: nat)
    requires t.WellFormed() && k <= |t.prob| && i < |t.prob|
    ensures Sum(ColumnMasses(t, i)[..k]) == Sum(Handed(t, i)[..k]) + (if i < k then t.prob[i] else 0.0)
  {
    if k > 0 {
      ColumnMassesPrefix(t, i, k - 1);
      assert ColumnMasses(t, i)[..k][..k - 1] == ColumnMasses(t, i)[..k - 1];
      assert Handed(t, i)[..k][..k - 1] == Handed(t, i)[..k - 1];
    }
  }

  // -------------------------------------------------------------- conservation while building

  /** The state of the build: `rest` is the residual mass, `done` the finalised indices. */
  datatype Build = Build(prob: seq<real>, alias: seq<nat>, rest: seq<real>, done: seq<bool>) {
    ghost predicate Shaped(n: nat) {
      && |prob| == |alias| == |rest| == |done| == n
      && forall j :: 0 <= j < n ==> alias[j] < n
    }
  }

  ghost function Given(b: Build, i: nat): seq<real>
    requires b.Shaped(|b.done|)
  {
    seq(|b.done|, j requires 0 <= j < |b.done| =>
      if b.done[j] && b.alias[j] == i then 1.0 - b.prob[j] else 0.0)
  }

  ghost function Excess(b: Build): seq<real>
    requires b.Shaped(|b.done|)
  {
    seq(|b.done|, j requires 0 <= j < |b.done| => if b.done[j] then 0.0 else b.rest[j] - 1.0)
  }

  ghost function Kept(b: Build, i: nat): real
    requires b.Shaped(|b.done|) && i < |b.done|
  {
    if b.done[i] then b.prob[i] else b.rest[i]
  }

  /** Mass is conserved: what i keeps plus what it was given is what it is owed,
      and the residuals still open average one. */
  ghost predicate Conserved(b: Build, owed: seq<real>) {
    && b.Shaped(|owed|)
    && Sum(Excess(b)) == 0.0
    && forall i :: 0 <= i < |owed| ==> Kept(b, i) + Sum(Given(b, i)) == owed[i]
  }

  lemma {:induction false} SumOfZeros(q: seq<real>)
    requires forall j :: 0 <= j < |q| ==> q[j] == 0.0
    ensures Sum(q) == 0.0
  {
    if q != [] {
      SumOfZeros(q[..|q| - 1]);
    }
  }

  lemma {:induction false} ExcessPrefix(b: Build, k: nat)
    requires b.Shaped(|b.done|) && k <= |b.done|
    requires forall j :: 0 <= j < |b.done| ==> !b.done[j]
    ensures Sum(Excess(b)[..k]) == Sum(b.rest[..k]) - k as real
  {
    if k > 0 {
      ExcessPrefix(b, k - 1);
      assert Excess(b)[..k][..k - 1] == Excess(b)[..k - 1];
      assert b.rest[..k][..k - 1] == b.rest[..k - 1];
    }
  }

  lemma {:induction false} StartConserved(b: Build, w: seq<real>)
    requires b.Shaped(|w|) && Sum(w) != 0.0
    requires b.rest == Scaled(w, Factor(w))
    requires forall j :: 0 <= j < |w| ==> !b.done[j]
    ensures Conserved(b, Scaled(w, Factor(w)))
  {
    forall i | 0 <= i < |w| ensures Sum(Given(b, i)) == 0.0 {
      SumOfZeros(Given(b, i));
    }
    ExcessPrefix(b, |w|);
    SumScaled(w);
    assert b.rest[..|w|] == b.rest && Excess(b)[..|w|] == Excess(b);
  }

  /** Closing index s: it keeps its residual, l covers the rest of column s. */
  function Close(b: Build, s: nat, l: nat): Build
    requires b.Shaped(|b.done|) && s < |b.done| && l < |b.done| && s != l
  {
    Build(b.prob[s := b.rest[s]], b.alias[s := l], b.rest[l := b.rest[l] + b.rest[s] - 1.0], b.done[s := true])
  }

  lemma {:induction false} CloseConserves(b: Build, owed: seq<real>, s: nat, l: nat)
    requires Conserved(b, owed)
    requires s < |owed| && l < |owed| && s != l && !b.done[s] && !b.done[l]
    ensures Conserved(Close(b, s, l), owed)
  {
    var c := Close(b, s, l);
    forall i | 0 <= i < |owed| ensures Kept(c, i) + Sum(Given(c, i)) == owed[i] {
      var v := if i == l then 1.0 - b.rest[s] else 0.0;
      assert Given(c, i) == Given(b, i)[s := v];
      SumUpdate(Given(b, i), s, v);
    }
    var e := Excess(b)[s := 0.0];
    SumUpdate(Excess(b), s, 0.0);
    SumUpdate(e, l, c.rest[l] - 1.0);
    assert Excess(c) == e[l := c.rest[l] - 1.0];
  }

  /** Closing an index whose residual is exactly one: it keeps its whole column. */
  function Seal(b: Build, l: nat): Build
    requires b.Shaped(|b.done|) && l < |b.done|
  {
    b.(prob := b.prob[l := 1.0], done := b.done[l := true])
  }

  lemma {:induction false} SealConserves(b: Build, owed: seq<real>, l: nat)
    requires Conserved(b, owed) && l < |owed| && !b.done[l] && b.rest[l] == 1.0
    ensures Conserved(Seal(b, l), owed)
  {
    var c := Seal(b, l);
    forall i | 0 <= i < |owed| ensures Kept(c, i) + Sum(Given(c, i)) == owed[i] {
      assert Given(c, i) == Given(b, i)[l := 0.0];
      SumUpdate(Given(b, i), l, 0.0);
    }
    assert Excess(c) == Excess(b);
  }

  /** When no residual below one is left, every residual left is exactly one. */
  lemma {:induction false} OnlyLargeLeft(b: Build, owed: seq<real>)
    requires Conserved(b, owed)
    requires forall j :: 0 <= j < |owed| && !b.done[j] ==> b.rest[j] >= 1.0
    ensures forall j :: 0 <= j < |owed| && !b.done[j] ==> b.rest[j] == 1.0
  {
    forall j | 0 <= j < |owed| && !b.done[j] ensures b.rest[j] == 1.0 {
      SumZero(Excess(b), j);
    }
  }

  /** When no residual of at least one is left, nothing is left. */
  lemma {:induction false} OnlySmallLeft(b: Build, owed: seq<real>)
    requires Conserved(b, owed)
    requires forall j :: 0 <= j < |owed| && !b.done[j] ==> b.rest[j] < 1.0
    ensures forall j :: 0 <= j < |owed| ==> b.done[j]
  {
    if k: nat :| k < |owed| && !b.done[k] {
      SumNegative(Excess(b), k);
    }
  }

  lemma {:induction false} FinishedIsExact(b: Build, w: seq<real>, c: real)
    requires Conserved(b, Scaled(w, c))
    requires forall j :: 0 <= j < |w| ==> b.done[j]
    ensures Exact(Table(b.prob, b.alias), w, c)
  {
    var t := Table(b.prob, b.alias);
    forall i | 0 <= i < |w| ensures Sum(ColumnMasses(t, i)) == Owed(w[i], c) {
      ColumnMassesPrefix(t, i, |w|);
      assert ColumnMasses(t, i)[..|w|] == ColumnMasses(t, i);
      assert Handed(t, i)[..|w|] == Handed(t, i);
      assert Handed(t, i) == Given(b, i);
      assert Kept(b, i) + Sum(Given(b, i)) == Scaled(w, c)[i];
    }
  }

  // -------------------------------------------------------------- the builder

  ghost predicate NonNegative(q: seq<real>) {
    forall j :: 0 <= j < |q| ==> q[j] >= 0.0
  }

  /** Open residuals are nonnegative and finalised entries are probabilities. */
  ghost predicate Bounded(b: Build)
    requires b.Shaped(|b.done|)
  {
    forall j :: 0 <= j < |b.done| ==> if b.done[j] then 0.0 <= b.prob[j] <= 1.0 else b.rest[j] >= 0.0
  }

  lemma {:induction false} ProductNonNegative(a: real, b: real)
    requires a >= 0.0 && b >= 0.0
    ensures Owed(a, b) >= 0.0
  {
  }

  lemma {:induction false} SharesNonNegative(w: seq<real>)
    requires Sum(w) != 0.0
    ensures NonNegative(w) ==> NonNegative(Scaled(w, Factor(w)))
  {
    if NonNegative(w) {
      SumNonNegative(w);
      assert Factor(w) >= 0.0;
      forall i | 0 <= i < |w| ensures Owed(w[i], Factor(w)) >= 0.0 {
        ProductNonNegative(w[i], Factor(w));
      }
    }
  }

  /** One worklist: distinct open indices, all on the same side of one. */
  ghost predicate Worklist(list: seq<nat>, b: Build, large: bool) {
    && |b.rest| == |b.done|
    && (forall k :: 0 <= k < |list| ==>
          list[k] < |b.done| && !b.done[list[k]] && (b.rest[list[k]] >= 1.0 <==> large))
    && (forall j, k :: 0 <= j < k < |list| ==> list[j] != list[k])
  }

  /** What holds between rounds: mass is conserved and the worklists hold exactly the open indices. */
  ghost predicate Sharing(b: Build, owed: seq<real>, small: seq<nat>, large: seq<nat>) {
    && Conserved(b, owed)
    && (NonNegative(owed) ==> Bounded(b))
    && Worklist(small, b, false) && Worklist(large, b, true)
    && forall j :: 0 <= j < |owed| && !b.done[j] ==> j in small || j in large
  }

  /** Taking the top off a worklist leaves a worklist, when only that entry and one from the other list changed. */
  lemma {:induction false} PopKeeps(list: seq<nat>, top: nat, b: Build, c: Build, large: bool)
    requires Worklist(list + [top], b, large)
    requires |c.rest| == |c.done| == |b.done|
    requires forall j :: 0 <= j < |b.done| && j != top && (b.rest[j] >= 1.0 <==> large) ==>
               c.rest[j] == b.rest[j] && c.done[j] == b.done[j]
    ensures Worklist(list, c, large) && top !in list
  {
    assert forall k :: 0 <= k < |list| ==> (list + [top])[k] == list[k];
    assert (list + [top])[|list|] == top;
  }

  lemma {:induction false} PushKeeps(list: seq<nat>, top: nat, c: Build, large: bool)
    requires Worklist(list, c, large) && top !in list
    requires top < |c.done| && !c.done[top] && (c.rest[top] >= 1.0 <==> large)
    ensures Worklist(list + [top], c, large)
  {
  }

  lemma {:induction false} TopOfWorklist(list: seq<nat>, top: nat, b: Build, large: bool)
    requires Worklist(list + [top], b, large)
    ensures top < |b.done| && !b.done[top] && (b.rest[top] >= 1.0 <==> large)
  {
    assert (list + [top])[|list|] == top;
  }

  lemma {:induction false} ShareRound(b: Build, owed: seq<real>, small: seq<nat>, large: seq<nat>, s: nat, l: nat)
    requires Sharing(b, owed, small + [s], large + [l])
    ensures b.Shaped(|b.done|) && s < |b.done| && l < |b.done| && s != l
    ensures b.rest[l] + b.rest[s] - 1.0 < 1.0 ==> Sharing(Close(b, s, l), owed, small + [l], large)
    ensures b.rest[l] + b.rest[s] - 1.0 >= 1.0 ==> Sharing(Close(b, s, l), owed, small, large + [l])
  {
    TopOfWorklist(small, s, b, false);
    TopOfWorklist(large, l, b, true);
    var c := Close(b, s, l);
    CloseConserves(b, owed, s, l);
    PopKeeps(small, s, b, c, false);
    PopKeeps(large, l, b, c, true);
    if c.rest[l] < 1.0 {
      assert l !in small by {
        assert Worklist(small, c, false);
        assert forall k :: 0 <= k < |small| ==> (small + [s])[k] == small[k];
      }
      PushKeeps(small, l, c, false);
    } else {
      PushKeeps(large, l, c, true);
    }
  }

  method Total(weights: seq<real>) returns (sum: real)
    ensures sum == Sum(weights)
  {
    sum := 0.0;
    for i := 0 to |weights|
      invariant sum == Sum(weights[..i])
    {
      assert weights[..i + 1][..i] == weights[..i];
      sum := sum + weights[i];
    }
    assert weights[..|weights|] == weights;
  }

  function ScaleWeight(w: real, n: real, sum: real): (r: real)
    requires sum != 0.0
    ensures r == Owed(w, n / sum)
  {
    w * n / sum
  }

  /** The indices of `scaled` split by the size of their entry, each listed once. */
  ghost predicate Dealt(scaled: seq<real>, small: seq<nat>, large: seq<nat>) {
    && (forall k :: 0 <= k < |small| ==> small[k] < |scaled| && scaled[small[k]] < 1.0)
    && (forall k :: 0 <= k < |large| ==> large[k] < |scaled| && scaled[large[k]] >= 1.0)
    && (forall j, k :: 0 <= j < k < |small| ==> small[j] != small[k])
    && (forall j, k :: 0 <= j < k < |large| ==> large[j] != large[k])
    && (forall j :: 0 <= j < |scaled| ==> j in small || j in large)
  }

  lemma {:induction false} NothingDealt()
    ensures Dealt([], [], [])
  {
  }

  lemma {:induction false} DealOne(scaled: seq<real>, small: seq<nat>, large: seq<nat>, x: real)
    requires Dealt(scaled, small, large)
    ensures x < 1.0 ==> Dealt(scaled + [x], small + [|scaled|], large)
    ensures x >= 1.0 ==> Dealt(scaled + [x], small, large + [|scaled|])
  {
    assert forall list: seq<nat>, j: nat {:trigger j in list + [|scaled|]} :: j in list ==> j in list + [|scaled|];
  }

  /** Scales the weights and deals the indices onto the two worklists. */
  method Deal(weights: seq<real>, sum: real, scaled: array<real>, small: array<nat>, large: array<nat>)
    returns (ns: nat, nl: nat)
    requires sum == Sum(weights) != 0.0
    requires scaled.Length == small.Length == large.Length == |weights| && small != large
    modifies scaled, small, large
    ensures ns <= |weights| && nl <= |weights|
    ensures scaled[..] == Scaled(weights, Factor(weights))
    ensures Dealt(scaled[..], small[..ns], large[..nl])
  {
    hide Dealt, ScaleWeight, Owed, Sum;
    ns, nl := 0, 0;
    ghost var owed := Scaled(weights, Factor(weights));
    NothingDealt();
    assert scaled[..0] == [] && small[..0] == [] && large[..0] == [];
    for i := 0 to |weights|
      invariant ns + nl == i
      invariant scaled[..i] == owed[..i]
      invariant Dealt(scaled[..i], small[..ns], large[..nl])
    {
      scaled[i] := ScaleWeight(weights[i], |weights| as real, sum);
      assert scaled[..i + 1] == scaled[..i] + [scaled[i]];
      DealOne(scaled[..i], small[..ns], large[..nl], scaled[i]);
      if scaled[i] < 1.0 {
        small[ns] := i;
        ns := ns + 1;
        assert small[..ns] == small[..ns - 1] + [i];
      } else {
        large[nl] := i;
        nl := nl + 1;
        assert large[..nl] == large[..nl - 1] + [i];
      }
    }
    assert scaled[..|weights|] == scaled[..];
  }

  lemma {:induction false} DealtIsSharing(b: Build, owed: seq<real>, small: seq<nat>, large: seq<nat>)
    requires Conserved(b, owed) && b.rest == owed
    requires forall j :: 0 <= j < |owed| ==> !b.done[j]
    requires Dealt(owed, small, large)
    ensures Sharing(b, owed, small, large)
  {
  }

  /** The rounds: pair an index below one with one above, until a worklist runs dry. */
  method Share(prob: array<real>, alias: array<nat>, scaled: array<real>, small: array<nat>, large: array<nat>,
               ns0: nat, nl0: nat, ghost start: Build, ghost owed: seq<real>)
    returns (ns: nat, nl: nat, ghost b: Build)
    requires prob != scaled && alias != small && alias != large && small != large
    requires ns0 <= small.Length && nl0 <= large.Length
    requires start.prob == prob[..] && start.alias == alias[..] && start.rest == scaled[..]
    requires Sharing(start, owed, small[..ns0], large[..nl0])
    modifies prob, alias, scaled, small, large
    ensures ns <= small.Length && nl <= large.Length && (ns == 0 || nl == 0)
    ensures b.prob == prob[..] && b.alias == alias[..] && b.rest == scaled[..]
    ensures Sharing(b, owed, small[..ns], large[..nl])
  {
    hide Sharing;
    ns, nl, b := ns0, nl0, start;
    while ns > 0 && nl > 0
      invariant ns <= small.Length && nl <= large.Length
      invariant b.prob == prob[..] && b.alias == alias[..] && b.rest == scaled[..]
      invariant Sharing(b, owed, small[..ns], large[..nl])
      decreases ns + nl
    {
      ns := ns - 1;
      var s := small[ns];
      nl := nl - 1;
      var l := large[nl];
      assert small[..ns + 1] == small[..ns] + [s] && large[..nl + 1] == large[..nl] + [l];
      ShareRound(b, owed, small[..ns], large[..nl], s, l);
      b := Close(b, s, l);
      prob[s] := scaled[s];
      alias[s] := l;
      scaled[l] := (scaled[l] + scaled[s]) - 1.0;
      if scaled[l] < 1.0 {
        small[ns] := l;
        ns := ns + 1;
        assert small[..ns] == small[..ns - 1] + [l];
      } else {
        large[nl] := l;
        nl := nl + 1;
        assert large[..nl] == large[..nl - 1] + [l];
      }
    }
  }

  /** The last worklist: distinct open indices whose residual is one; everything finalised is a probability. */
  ghost predicate Ones(b: Build, owed: seq<real>, list: seq<nat>) {
    && b.Shaped(|owed|)
    && (forall k :: 0 <= k < |list| ==> list[k] < |owed| && !b.done[list[k]] && b.rest[list[k]] == 1.0)
    && (forall j, k :: 0 <= j < k < |list| ==> list[j] != list[k])
    && (NonNegative(owed) ==> Bounded(b))
  }

  lemma {:induction false} SealTop(b: Build, owed: seq<real>, list: seq<nat>, top: nat)
    requires Conserved(b, owed) && Ones(b, owed, list + [top])
    ensures top < |owed| && Conserved(Seal(b, top), owed) && Ones(Seal(b, top), owed, list)
  {
    assert (list + [top])[|list|] == top;
    assert forall k :: 0 <= k < |list| ==> (list + [top])[k] == list[k];
    SealConserves(b, owed, top);
  }

  /** Finalises what is left on one worklist: in exact arithmetic its residuals are all one. */
  method Finish(prob: array<real>, list: array<nat>, count: nat, ghost start: Build, ghost owed: seq<real>)
    returns (ghost b: Build)
    requires count <= list.Length
    requires start.prob == prob[..] && Conserved(start, owed) && Ones(start, owed, list[..count])
    requires forall j :: 0 <= j < |owed| && !start.done[j] ==> j in list[..count]
    modifies prob
    ensures b.alias == start.alias && b.prob == prob[..] && Conserved(b, owed) && Ones(b, owed, [])
    ensures forall j :: 0 <= j < |owed| ==> b.done[j]
  {
    hide Conserved;
    var k := count;
    b := start;
    ghost var left := list[..count];
    while k > 0
      invariant 0 <= k <= count && left == list[..k]
      invariant b.alias == start.alias && b.rest == start.rest && b.prob == prob[..] && Conserved(b, owed)
      invariant Ones(b, owed, left)
      invariant forall j :: 0 <= j < |owed| && !b.done[j] ==> j in left
    {
      k := k - 1;
      assert left == list[..k] + [list[k]];
      left := list[..k];
      SealTop(b, owed, left, list[k]);
      b := Seal(b, list[k]);
      prob[list[k]] := 1.0;
    }
  }

  /** When a worklist runs dry, everything still open sits on the large one with residual exactly one. */
  lemma {:induction false} LastList(b: Build, owed: seq<real>, small: seq<nat>, large: seq<nat>)
    requires Sharing(b, owed, small, large) && (small == [] || large == [])
    ensures small == [] && Conserved(b, owed) && Ones(b, owed, large)
    ensures forall j :: 0 <= j < |owed| && !b.done[j] ==> j in large
  {
    if small == [] {
      OnlyLargeLeft(b, owed);
    } else {
      var k := small[0];
      OnlySmallLeft(b, owed);
      assert false;
    }
  }

  /** The whole build.  Weights may be anything with a nonzero sum; nonnegative shares give probabilities. */
  method BuildAlias(weights: seq<real>) returns (t: Table)
    requires Sum(weights) != 0.0
    ensures Exact(t, weights, Factor(weights))
    ensures NonNegative(weights) ==> forall p :: p in t.prob ==> 0.0 <= p <= 1.0
  {
    hide Conserved, Sharing, Exact, Sum, Owed, Dealt, Factor, Scaled;
    var n := |weights|;
    var prob := new real[n](_ => 0.0);
    var alias := new nat[n](_ => 0);
    var sum := Total(weights);
    var scaled := new real[n](_ => 0.0);
    var small := new nat[n](_ => 0);
    var large := new nat[n](_ => 0);
    var ns, nl := Deal(weights, sum, scaled, small, large);
    ghost var owed := scaled[..];
    SharesNonNegative(weights);
    ghost var b := Build(prob[..], alias[..], owed, seq(n, _ => false));
    StartConserved(b, weights);
    DealtIsSharing(b, owed, small[..ns], large[..nl]);
    ns, nl, b := Share(prob, alias, scaled, small, large, ns, nl, b, owed);
    LastList(b, owed, small[..ns], large[..nl]);
    b := Finish(prob, large, nl, b, owed);
    b := Finish(prob, small, ns, b, owed);
    FinishedIsExact(b, weights, Factor(weights));
    t := Table(prob[..], alias[..]);
  }
}
