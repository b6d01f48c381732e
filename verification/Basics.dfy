/** Values that may be missing, sequences without an element, and finite sets. */
module Basics {
  datatype Option<+T> = None | Some(value: T)

  function Remove<T>(q: seq<T>, k: nat): (rest: seq<T>)
    requires k < |q|
    ensures |rest| == |q| - 1
    ensures forall i :: 0 <= i < k ==> rest[i] == q[i]
    ensures forall i :: k <= i < |rest| ==> rest[i] == q[i + 1]
  {
    q[..k] + q[k + 1..]
  }

  /** The n numbers from i on. */
  ghost function Window(i: nat, n: nat): (w: set<nat>)
    ensures |w| == n
    ensures forall j: nat :: j in w <==> i <= j < i + n
  {
    if n == 0 then {} else Window(i, n - 1) + {i + n - 1}
  }

  lemma {:induction false} SubsetOfSameSize(a: set<nat>, b: set<nat>)
    requires a <= b && |a| == |b|
    ensures a == b
  {
    assert |b - a| == |b| - |a|;
    assert b == a + (b - a);
  }
}
