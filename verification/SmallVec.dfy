/** tools/stack_deque_vs_vector.cpp: a vector with an inline buffer of N slots that spills to a
    heap buffer of doubling capacity. */
module SmallVec {

  class SmallVec<T(0,==)> {
    const inline: array<T>
    var heap: array?<T>
    var cap: nat
    var size: nat

    // Counted since construction.
    ghost var pushes: nat
    ghost var copied: nat
    ghost var requested: nat

    ghost predicate Valid()
      reads this
    {
      && inline.Length >= 1
      && size <= cap
      && size <= pushes
      && (if heap == null then cap == inline.Length else heap != inline && heap.Length == cap)
      // Each growth from c to 2c copies c and requests 2c, at a push that found c elements.
      && copied == cap - inline.Length
      && requested == 2 * (cap - inline.Length)
      && (heap == null || cap < 2 * pushes)
    }

    ghost function Contents(): seq<T>
      requires Valid()
      reads this, inline, heap
    {
      if heap != null then heap[..size] else inline[..size]
    }

    constructor (n: nat)
      requires n >= 1
      ensures Valid() && fresh(inline) && inline.Length == n && heap == null && Contents() == []
      ensures pushes == copied == requested == 0
    {
      inline := new T[n];
      heap := null;
      cap := n;
      size := 0;
      pushes, copied, requested := 0, 0, 0;
    }

    /** The growth step of push_back: the contents move to a heap buffer twice as large. */
    method Grow()
      requires Valid() && size == cap
      modifies this
      ensures inline.Length >= 1 && heap != null && fresh(heap) && heap.Length == cap == 2 * old(cap)
      ensures size == old(size) && pushes == old(pushes)
      ensures heap[..size] == old(Contents())
      ensures copied == old(copied + size) && requested == old(requested) + cap
    {
      var larger := new T[cap * 2];
      for i := 0 to size
        invariant Valid() && unchanged(this)
        invariant larger[..i] == Contents()[..i]
      {
        larger[i] := if heap != null then heap[i] else inline[i];
      }
      copied, requested := copied + size, requested + cap * 2;
      heap, cap := larger, cap * 2;
    }

    /** The store at the end of push_back, with room for one more. */
    method Append(v: T)
      requires inline.Length >= 1 && size < cap
      requires if heap == null then cap == inline.Length else heap != inline && heap.Length == cap
      modifies this`size, this`pushes, inline, heap
      ensures size == old(size) + 1 && pushes == old(pushes) + 1
      ensures if heap != null then heap[..size] == old(heap[..size]) + [v]
              else inline[..size] == old(inline[..size]) + [v]
    {
      if heap != null {
        heap[size] := v;
      } else {
        inline[size] := v;
      }
      size, pushes := size + 1, pushes + 1;
    }

    method PushBack(v: T)
      requires Valid()
      modifies this, inline, heap
      ensures Valid() && (heap == old(heap) || fresh(heap))
      ensures Contents() == old(Contents()) + [v]
      ensures pushes == old(pushes) + 1
    {
      if size == cap {
        Grow();
      }
      Append(v);
    }

    /** push_back of a reference to the vector's own k-th element, which is read after the growth.  Growth deletes
        the old heap buffer, so the reference is dangling exactly when the vector is full and already on the heap;
        the model stops there. */
    method PushOwn(k: nat) returns (dangling: bool)
      requires Valid() && k < size
      modifies this, inline, heap
      ensures dangling <==> old(size == cap && heap != null)
      ensures Valid() && (heap == old(heap) || fresh(heap))
      ensures Contents() == if dangling then old(Contents()) else old(Contents()) + [old(Contents())[k]]
    {
      var buffer := heap;
      dangling := size == cap && buffer != null;
      if dangling {
        return;
      }
      if size == cap {
        Grow();
      }
      var v := if buffer != null then buffer[k] else inline[k];
      Append(v);
    }

    method PopBack()
      requires Valid() && size > 0
      modifies this`size
      ensures Valid() && Contents() == old(Contents())[..|old(Contents())| - 1]
    {
      size := size - 1;
    }

    method Back() returns (v: T)
      requires Valid() && size > 0
      ensures v == Contents()[|Contents()| - 1]
    {
      v := if heap != null then heap[size - 1] else inline[size - 1];
    }

    method Equals(o: SmallVec<T>) returns (same: bool)
      requires Valid() && o.Valid()
      ensures same <==> Contents() == o.Contents()
    {
      if size != o.size {
        return false;
      }
      for i := 0 to size
        invariant Contents()[..i] == o.Contents()[..i]
      {
        var mine := if heap != null then heap[i] else inline[i];
        var other := if o.heap != null then o.heap[i] else o.inline[i];
        assert mine == Contents()[i] && other == o.Contents()[i];
        if mine != other {
          return false;
        }
      }
      assert Contents()[..size] == Contents() && o.Contents()[..size] == o.Contents();
      same := true;
    }
  }

  datatype Op<T> = Push(value: T) | Pop

  /** The vector as a plain sequence; a pop of an empty vector is outside the interface. */
  ghost predicate Allowed<T>(ops: seq<Op<T>>)
    decreases |ops|, 0
  {
    ops == [] ||
    var m := |ops| - 1;
    Allowed(ops[..m]) && (ops[m].Pop? ==> |After(ops[..m])| > 0)
  }

  ghost function After<T>(ops: seq<Op<T>>): seq<T>
    requires Allowed(ops)
    decreases |ops|, 1
  {
    if ops == [] then []
    else
      var m := |ops| - 1;
      var s := After(ops[..m]);
      if ops[m].Push? then s + [ops[m].value] else s[..|s| - 1]
  }

  ghost function Pushes<T>(ops: seq<Op<T>>): nat {
    if ops == [] then 0 else Pushes(ops[..|ops| - 1]) + if ops[|ops| - 1].Push? then 1 else 0
  }

  lemma {:induction false} AllowedPrefix<T>(ops: seq<Op<T>>, i: nat)
    requires i <= |ops| && Allowed(ops)
    ensures Allowed(ops[..i])
  {
    if i < |ops| {
      AllowedPrefix(ops[..|ops| - 1], i);
      assert ops[..|ops| - 1][..i] == ops[..i];
    } else {
      assert ops[..i] == ops;
    }
  }

  /** Every run of pushes and pops refines the sequence; k pushes copy fewer than 2k elements and
      request fewer than 4k slots of heap. */
  method Replay<T(0,==)>(n: nat, ops: seq<Op<T>>) returns (v: SmallVec<T>)
    requires n >= 1 && Allowed(ops)
    ensures v.Valid() && v.Contents() == After(ops)
    ensures Pushes(ops) > 0 ==> v.copied < 2 * Pushes(ops) && v.requested < 4 * Pushes(ops)
  {
    v := new SmallVec<T>(n);
    assert ops[..|ops|] == ops;
    AllowedPrefix(ops, 0);
    for i := 0 to |ops|
      invariant fresh(v) && fresh(v.inline) && (v.heap == null || fresh(v.heap))
      invariant v.Valid() && Allowed(ops[..i]) && v.Contents() == After(ops[..i])
      invariant v.pushes == Pushes(ops[..i])
    {
      AllowedPrefix(ops, i + 1);
      assert ops[..i + 1][..i] == ops[..i];
      match ops[i]
      case Push(x) => v.PushBack(x);
      case Pop => v.PopBack();
    }
  }
}
