/** tools/footprint.py: the descendant closure of a process over a parent-to-children map. */
module WalkTree {

  type Pid = int
  type Children = map<Pid, seq<Pid>>

  /** The children recorded for `p`; none when `p` is not a key. */
  function ChildrenOf(children: Children, p: Pid): seq<Pid> {
    if p in children then children[p] else []
  }

  /** A chain of parent-to-child links from the first pid to the last. */
  ghost predicate IsChain(children: Children, chain: seq<Pid>) {
    forall i :: 0 < i < |chain| ==> chain[i] in ChildrenOf(children, chain[i - 1])
  }

  ghost predicate Leads(children: Children, chain: seq<Pid>, root: Pid, p: Pid) {
    chain != [] && IsChain(children, chain) && chain[0] == root && chain[|chain| - 1] == p
  }

  ghost predicate Reachable(children: Children, root: Pid, p: Pid) {
    exists chain :: Leads(children, chain, root, p)
  }

  lemma RootReachable(children: Children, root: Pid)
    ensures Reachable(children, root, root)
  {
    assert Leads(children, [root], root, root);
  }

  lemma ChildReachable(children: Children, root: Pid, p: Pid, c: Pid)
    requires Reachable(children, root, p) && c in ChildrenOf(children, p)
    ensures Reachable(children, root, c)
  {
    var chain :| Leads(children, chain, root, p);
    assert Leads(children, chain + [c], root, c);
  }

  ghost predicate HoldsChildren(children: Children, pids: set<Pid>, q: Pid) {
    forall c :: c in ChildrenOf(children, q) ==> c in pids
  }

  /** A set that holds the root and all children of its members holds everything reachable. */
  lemma {:induction false} ClosedHolds(children: Children, pids: set<Pid>, chain: seq<Pid>, root: Pid, p: Pid)
    requires root in pids && forall q :: q in pids ==> HoldsChildren(children, pids, q)
    requires Leads(children, chain, root, p)
    ensures p in pids
    decreases |chain|
  {
    var m := |chain| - 1;
    if m > 0 {
      ClosedHolds(children, pids, chain[..m], root, chain[m - 1]);
    }
  }

  /** Every pid the map mentions, and the root. */
  ghost function Universe(children: Children, root: Pid): set<Pid> {
    {root} + set p, c | p in children && c in children[p] :: c
  }

  /** The walk has found only reachable pids and has looked at all but the queued ones. */
  ghost predicate Explored(children: Children, root: Pid, pids: set<Pid>, queue: seq<Pid>) {
    && root in pids && pids <= Universe(children, root)
    && (forall q :: q in pids ==> Reachable(children, root, q))
    && (forall q :: q in queue ==> q in pids)
    && (forall q :: q in pids && q !in queue ==> HoldsChildren(children, pids, q))
  }

  /** Once the queue is empty the set is exactly what is reachable. */
  lemma ExploredAll(children: Children, root: Pid, pids: set<Pid>)
    requires Explored(children, root, pids, [])
    ensures forall p :: p in pids <==> Reachable(children, root, p)
  {
    forall p | Reachable(children, root, p)
      ensures p in pids
    {
      var chain :| Leads(children, chain, root, p);
      ClosedHolds(children, pids, chain, root, p);
    }
  }

  lemma AddChild(children: Children, root: Pid, p: Pid, pids: set<Pid>, queue: seq<Pid>, c: Pid)
    requires Explored(children, root, pids, queue + [p]) && c in ChildrenOf(children, p)
    ensures Explored(children, root, pids + {c}, queue + [c] + [p])
  {
    assert p in queue + [p];
    ChildReachable(children, root, p, c);
    forall q | q in pids + {c} && q !in queue + [c] + [p]
      ensures HoldsChildren(children, pids + {c}, q)
    {
      assert q !in queue + [p];
    }
  }

  lemma LookedAt(children: Children, root: Pid, p: Pid, pids: set<Pid>, queue: seq<Pid>)
    requires Explored(children, root, pids, queue + [p]) && HoldsChildren(children, pids, p)
    ensures Explored(children, root, pids, queue)
  {
    assert forall q :: q in queue ==> q in queue + [p];
    assert forall q :: q !in queue && q != p ==> q !in queue + [p];
  }

  /** The inner loop: adds and queues the children of `p` not seen before. */
  method AddChildren(children: Children, root: Pid, p: Pid, pids: set<Pid>, queue: seq<Pid>)
    returns (pids': set<Pid>, queue': seq<Pid>)
    requires Explored(children, root, pids, queue + [p])
    ensures Explored(children, root, pids', queue')
    ensures pids <= pids' && (pids' == pids ==> queue' == queue)
  {
    hide Explored;
    pids', queue' := pids, queue;
    var cs := ChildrenOf(children, p);
    for i := 0 to |cs|
      invariant Explored(children, root, pids', queue' + [p])
      invariant forall j :: 0 <= j < i ==> cs[j] in pids'
      invariant pids <= pids' && (pids' == pids ==> queue' == queue)
    {
      var c := cs[i];
      if c !in pids' {
        AddChild(children, root, p, pids', queue', c);
        pids' := pids' + {c};
        queue' := queue' + [c];
      }
    }
    LookedAt(children, root, p, pids', queue');
  }

  /** Terminates on every finite map, cyclic or not, with exactly the reachable pids. */
  method Walk(root: Pid, children: Children) returns (pids: set<Pid>)
    ensures forall p :: p in pids <==> Reachable(children, root, p)
  {
    pids := {root};
    var queue := [root];
    RootReachable(children, root);
    assert Explored(children, root, pids, queue);
    hide Reachable, Universe, HoldsChildren;
    while queue != []
      invariant Explored(children, root, pids, queue)
      decreases Universe(children, root) - pids, |queue|
    {
      var p := queue[|queue| - 1];
      assert queue == queue[..|queue| - 1] + [p];
      queue := queue[..|queue| - 1];
      pids, queue := AddChildren(children, root, p, pids, queue);
    }
    ExploredAll(children, root, pids);
  }
}
