/** Concurrent `set` and `get` on the page map's radix tree (src/core/page_map.h): any number of
    threads, one atomic access per step, second-level tables published by double-checked
    locking.  `abs` is the map that the stores build up; no step reads it. */
module PageMapPublish {
  import opened Basics
  import opened Spans

  /** What a `set` wants: first-level slot, entry, span. */
  datatype Write = Write(l1: nat, l2: nat, span: SpanPtr)

  /** Labels of ensureL2 and of the store after it, and the two loads of a `get`. */
  datatype Pc =
    | Idle
    | Load(w: Write) | Lock(w: Write) | Recheck(w: Write) | Alloc(w: Write)
    | Publish(w: Write, table: nat) | Unlock(w: Write, table: nat) | Store(w: Write, table: nat)
    | GetLoad(l1: nat, l2: nat) | GetRead(l1: nat, l2: nat, table: nat) | Got(l1: nat, l2: nat, result: SpanPtr)

  type Table = map<nat, Span>

  /** `tables` holds every table ever allocated, published or not. */
  datatype Sys = Sys(level1: seq<Option<nat>>, tables: seq<Table>, lock: Option<nat>, threads: seq<Pc>,
                     abs: map<(nat, nat), Span>)

  datatype Action = CallSet(thread: nat, w: Write) | CallGet(thread: nat, l1: nat, l2: nat) | Step(thread: nat)

  datatype Config = Config(slots: nat, threads: nat)

  function Init(c: Config): Sys {
    Sys(seq(c.slots, _ => None), [], None, seq(c.threads, _ => Idle), map[])
  }

  function Entry<K>(m: map<K, Span>, k: K): SpanPtr {
    if k in m then Some(m[k]) else None
  }

  function PutEntry<K>(m: map<K, Span>, k: K, span: SpanPtr): map<K, Span> {
    if span.Some? then m[k := span.value] else m - {k}
  }

  function Goto(s: Sys, t: nat, pc: Pc): Sys
    requires t < |s.threads|
  {
    s.(threads := s.threads[t := pc])
  }

  function Move(s: Sys, t: nat): Sys
    requires t < |s.threads|
  {
    match s.threads[t]
    case Idle => s
    case Load(w) =>
      if w.l1 >= |s.level1| then s
      else if s.level1[w.l1].Some? then Goto(s, t, Store(w, s.level1[w.l1].value)) else Goto(s, t, Lock(w))
    case Lock(w) => if s.lock.Some? then s else Goto(s, t, Recheck(w)).(lock := Some(t))
    case Recheck(w) =>
      if w.l1 >= |s.level1| then s
      else if s.level1[w.l1].Some? then Goto(s, t, Unlock(w, s.level1[w.l1].value)) else Goto(s, t, Alloc(w))
    case Alloc(w) => Goto(s, t, Publish(w, |s.tables|)).(tables := s.tables + [map[]])
    case Publish(w, table) =>
      if w.l1 >= |s.level1| then s
      else Goto(s, t, Unlock(w, table)).(level1 := s.level1[w.l1 := Some(table)])
    case Unlock(w, table) => Goto(s, t, Store(w, table)).(lock := None)
    case Store(w, table) =>
      if table >= |s.tables| then s
      else Goto(s, t, Idle).(tables := s.tables[table := PutEntry(s.tables[table], w.l2, w.span)],
                             abs := PutEntry(s.abs, (w.l1, w.l2), w.span))
    case GetLoad(l1, l2) =>
      if l1 >= |s.level1| then s
      else if s.level1[l1].Some? then Goto(s, t, GetRead(l1, l2, s.level1[l1].value)) else Goto(s, t, Got(l1, l2, None))
    case GetRead(l1, l2, table) =>
      if table >= |s.tables| then s else Goto(s, t, Got(l1, l2, Entry(s.tables[table], l2)))
    case Got(l1, l2, result) => Goto(s, t, Idle)
  }

  function Fire(s: Sys, a: Action): Sys {
    if a.thread >= |s.threads| then s
    else match a
      case CallSet(t, w) => if s.threads[t] == Idle && w.l1 < |s.level1| then Goto(s, t, Load(w)) else s
      case CallGet(t, l1, l2) => if s.threads[t] == Idle && l1 < |s.level1| then Goto(s, t, GetLoad(l1, l2)) else s
      case Step(t) => Move(s, t)
  }

  function Run(c: Config, schedule: seq<Action>): Sys {
    if schedule == [] then Init(c)
    else Fire(Run(c, schedule[..|schedule| - 1]), schedule[|schedule| - 1])
  }

  /** What a `get` would find right now. */
  function Visible(s: Sys, l1: nat, l2: nat): SpanPtr
    requires l1 < |s.level1| && (s.level1[l1].Some? ==> s.level1[l1].value < |s.tables|)
  {
    if s.level1[l1].None? then None else Entry(s.tables[s.level1[l1].value], l2)
  }

  // -------------------------------------------------------------- invariant

  predicate HoldsLock(pc: Pc) { pc.Recheck? || pc.Alloc? || pc.Publish? || pc.Unlock? }

  /** Published tables exist and no two slots share one. */
  predicate SlotsOk(s: Sys) {
    && (forall i :: 0 <= i < |s.level1| && s.level1[i].Some? ==> s.level1[i].value < |s.tables|)
    && (forall i, j :: 0 <= i < j < |s.level1| && s.level1[i].Some? ==> s.level1[i] != s.level1[j])
  }

  predicate ThreadOk(s: Sys, pc: Pc) {
    match pc
    case Idle => true
    case Load(w) => w.l1 < |s.level1|
    case Lock(w) => w.l1 < |s.level1|
    case Recheck(w) => w.l1 < |s.level1|
    case Alloc(w) => w.l1 < |s.level1| && s.level1[w.l1].None?
    case Publish(w, table) =>
      && w.l1 < |s.level1| && s.level1[w.l1].None?
      && table < |s.tables| && s.tables[table] == map[]
      && forall i :: 0 <= i < |s.level1| ==> s.level1[i] != Some(table)
    case Unlock(w, table) => w.l1 < |s.level1| && s.level1[w.l1] == Some(table)
    case Store(w, table) => w.l1 < |s.level1| && s.level1[w.l1] == Some(table)
    case GetLoad(l1, l2) => l1 < |s.level1|
    case GetRead(l1, l2, table) => l1 < |s.level1| && s.level1[l1] == Some(table)
    case Got(l1, l2, result) => l1 < |s.level1|
  }

  ghost predicate ThreadsOk(s: Sys) {
    forall t :: 0 <= t < |s.threads| ==>
      ThreadOk(s, s.threads[t]) && (HoldsLock(s.threads[t]) <==> s.lock == Some(t))
  }

  ghost predicate Faithful(s: Sys)
    requires SlotsOk(s)
  {
    forall i: nat, j: nat :: i < |s.level1| ==>
      Visible(s, i, j) == if (i, j) in s.abs then Some(s.abs[(i, j)]) else None
  }

  ghost predicate Inv(s: Sys) { SlotsOk(s) && ThreadsOk(s) && Faithful(s) }

  lemma {:induction false} PublishKeeps(s: Sys, t: nat)
    requires Inv(s) && t < |s.threads| && s.threads[t].Publish?
    ensures Inv(Move(s, t))
  {
    var u := Move(s, t);
    assert ThreadOk(s, s.threads[t]);
    forall q | 0 <= q < |u.threads| ensures ThreadOk(u, u.threads[q]) {
      assert ThreadOk(s, s.threads[q]);
    }
    forall i: nat, j: nat | i < |u.level1| ensures Visible(u, i, j) == Visible(s, i, j) {
    }
  }

  lemma {:induction false} AllocKeeps(s: Sys, t: nat)
    requires Inv(s) && t < |s.threads| && s.threads[t].Alloc?
    ensures Inv(Move(s, t))
  {
    var u := Move(s, t);
    forall q | 0 <= q < |u.threads| ensures ThreadOk(u, u.threads[q]) {
      assert ThreadOk(s, s.threads[q]);
    }
    forall i: nat, j: nat | i < |u.level1| ensures Visible(u, i, j) == Visible(s, i, j) {
    }
  }

  lemma {:induction false} StoreKeeps(s: Sys, t: nat)
    requires Inv(s) && t < |s.threads| && s.threads[t].Store?
    ensures Inv(Move(s, t))
  {
    var u := Move(s, t);
    var pc := s.threads[t];
    assert ThreadOk(s, pc);
    forall q | 0 <= q < |u.threads| ensures ThreadOk(u, u.threads[q]) {
      assert ThreadOk(s, s.threads[q]);
    }
    forall i: nat, j: nat | i < |u.level1|
      ensures Visible(u, i, j) == if (i, j) in u.abs then Some(u.abs[(i, j)]) else None
    {
      assert i != pc.w.l1 ==> s.level1[i] != Some(pc.table);
      assert Visible(s, i, j) == if (i, j) in s.abs then Some(s.abs[(i, j)]) else None;
    }
  }

  /** Replacing one thread's label, with the memory unchanged. */
  lemma {:induction false} GotoKeeps(s: Sys, t: nat, pc: Pc, lock: Option<nat>)
    requires Inv(s) && t < |s.threads| && ThreadOk(s, pc)
    requires lock == if HoldsLock(pc) then Some(t) else if HoldsLock(s.threads[t]) then None else s.lock
    requires HoldsLock(pc) ==> s.lock == None || s.lock == Some(t)
    ensures Inv(Goto(s, t, pc).(lock := lock))
  {
    var u := Goto(s, t, pc).(lock := lock);
    forall q | 0 <= q < |u.threads|
      ensures ThreadOk(u, u.threads[q]) && (HoldsLock(u.threads[q]) <==> u.lock == Some(q))
    {
      assert ThreadOk(s, s.threads[q]);
    }
    forall i: nat, j: nat | i < |u.level1| ensures Visible(u, i, j) == Visible(s, i, j) {
    }
  }

  /** Steps that change neither the first level nor a table. */
  lemma {:induction false} LocalKeeps(s: Sys, t: nat)
    requires Inv(s) && t < |s.threads|
    requires !s.threads[t].Publish? && !s.threads[t].Alloc? && !s.threads[t].Store?
    ensures Inv(Move(s, t))
  {
    hide Faithful;
    var u := Move(s, t);
    assert ThreadOk(s, s.threads[t]) && (HoldsLock(s.threads[t]) <==> s.lock == Some(t));
    assert u == Goto(s, t, u.threads[t]).(lock := u.lock);
    assert ThreadOk(s, u.threads[t]);
    GotoKeeps(s, t, u.threads[t], u.lock);
  }

  lemma {:induction false} FireKeeps(s: Sys, a: Action)
    requires Inv(s)
    ensures Inv(Fire(s, a))
  {
    if a.Step? && a.thread < |s.threads| {
      match s.threads[a.thread]
      case Publish(_, _) => PublishKeeps(s, a.thread);
      case Alloc(_) => AllocKeeps(s, a.thread);
      case Store(_, _) => StoreKeeps(s, a.thread);
      case _ => LocalKeeps(s, a.thread);
    } else if a.thread < |s.threads| {
      var u := Fire(s, a);
      GotoKeeps(s, a.thread, u.threads[a.thread], s.lock);
      assert u == Goto(s, a.thread, u.threads[a.thread]).(lock := s.lock);
    }
  }

  lemma {:induction false} RunKeeps(c: Config, schedule: seq<Action>)
    ensures Inv(Run(c, schedule))
  {
    if schedule != [] {
      RunKeeps(c, schedule[..|schedule| - 1]);
      FireKeeps(Run(c, schedule[..|schedule| - 1]), schedule[|schedule| - 1]);
    }
  }

  // -------------------------------------------------------------- main results

  lemma {:induction false} FireKeepsSlot(s: Sys, a: Action, i: nat)
    requires Inv(s) && i < |s.level1| && s.level1[i].Some?
    ensures |Fire(s, a).level1| == |s.level1| && Fire(s, a).level1[i] == s.level1[i]
  {
    if a.thread < |s.threads| {
      assert ThreadOk(s, s.threads[a.thread]);
    }
  }

  /** In every run, a slot goes from null to one table and never changes again. */
  lemma {:induction false} SlotsAreWriteOnce(c: Config, early: seq<Action>, late: seq<Action>, i: nat)
    requires early <= late && i < |Run(c, early).level1| && Run(c, early).level1[i].Some?
    ensures |Run(c, late).level1| == |Run(c, early).level1| && Run(c, late).level1[i] == Run(c, early).level1[i]
  {
    if |early| < |late| {
      var m := |late| - 1;
      assert early <= late[..m];
      SlotsAreWriteOnce(c, early, late[..m], i);
      RunKeeps(c, late[..m]);
      FireKeepsSlot(Run(c, late[..m]), late[m], i);
    } else {
      assert early == late;
    }
  }

  /** In every run, a `get` finds at each entry exactly what the last store of a `set` put there:
      no completed store is lost to a table published later. */
  lemma {:induction false} NoStoreIsLost(c: Config, schedule: seq<Action>, l1: nat, l2: nat)
    requires l1 < |Run(c, schedule).level1|
    ensures var s := Run(c, schedule);
            && (s.level1[l1].Some? ==> s.level1[l1].value < |s.tables|)
            && Visible(s, l1, l2) == if (l1, l2) in s.abs then Some(s.abs[(l1, l2)]) else None
  {
    RunKeeps(c, schedule);
  }

  /** A `get` returns the value its entry has at the moment of its last load. */
  lemma {:induction false} GetIsAtomic(c: Config, schedule: seq<Action>, t: nat)
    requires t < |Run(c, schedule).threads|
    ensures var s := Run(c, schedule); var u := Fire(s, Step(t));
            !s.threads[t].Got? && u.threads[t].Got? ==>
              var key := (u.threads[t].l1, u.threads[t].l2);
              u.abs == s.abs && u.threads[t].result == if key in u.abs then Some(u.abs[key]) else None
  {
    RunKeeps(c, schedule);
    var s := Run(c, schedule);
    var u := Fire(s, Step(t));
    assert ThreadOk(s, s.threads[t]);
    if !s.threads[t].Got? && u.threads[t].Got? {
      var l1, l2 := u.threads[t].l1, u.threads[t].l2;
      assert Visible(s, l1, l2) == if (l1, l2) in s.abs then Some(s.abs[(l1, l2)]) else None;
    }
  }

  // -------------------------------------------------------------- stores as the schedule shows them

  /** The span that the action stores into the entry; None when it stores none there. */
  function Stores(s: Sys, a: Action, l1: nat, l2: nat): Option<SpanPtr> {
    if a.Step? && a.thread < |s.threads| && s.threads[a.thread].Store?
       && s.threads[a.thread].w.l1 == l1 && s.threads[a.thread].w.l2 == l2
    then Some(s.threads[a.thread].w.span) else None
  }

  /** The span of the last step of the schedule that stores into the entry, null if there is none. */
  function LastStore(c: Config, schedule: seq<Action>, l1: nat, l2: nat): SpanPtr {
    if schedule == [] then None
    else
      var m := |schedule| - 1;
      var stored := Stores(Run(c, schedule[..m]), schedule[m], l1, l2);
      if stored.Some? then stored.value else LastStore(c, schedule[..m], l1, l2)
  }

  lemma {:induction false} FireStores(s: Sys, a: Action, l1: nat, l2: nat)
    requires Inv(s)
    ensures var stored := Stores(s, a, l1, l2);
            Entry(Fire(s, a).abs, (l1, l2)) == if stored.Some? then stored.value else Entry(s.abs, (l1, l2))
  {
    if a.thread < |s.threads| {
      assert ThreadOk(s, s.threads[a.thread]);
    }
  }

  lemma {:induction false} AbsIsLastStore(c: Config, schedule: seq<Action>, l1: nat, l2: nat)
    ensures Entry(Run(c, schedule).abs, (l1, l2)) == LastStore(c, schedule, l1, l2)
  {
    if schedule != [] {
      var m := |schedule| - 1;
      AbsIsLastStore(c, schedule[..m], l1, l2);
      RunKeeps(c, schedule[..m]);
      FireStores(Run(c, schedule[..m]), schedule[m], l1, l2);
      hide Stores, Fire, Inv;
    }
  }

  /** In every run a `get` finds at each entry the span of the last step that stored there. */
  lemma {:induction false} VisibleIsLastStore(c: Config, schedule: seq<Action>, l1: nat, l2: nat)
    requires l1 < |Run(c, schedule).level1|
    ensures var s := Run(c, schedule);
            && (s.level1[l1].Some? ==> s.level1[l1].value < |s.tables|)
            && Visible(s, l1, l2) == LastStore(c, schedule, l1, l2)
  {
    NoStoreIsLost(c, schedule, l1, l2);
    AbsIsLastStore(c, schedule, l1, l2);
  }

  // -------------------------------------------------------------- a thread left alone

  function Steps(s: Sys, t: nat, k: nat): Sys {
    if k == 0 then s else Fire(Steps(s, t, k - 1), Step(t))
  }

  lemma {:induction false} StepsKeep(s: Sys, t: nat, k: nat)
    requires Inv(s)
    ensures Inv(Steps(s, t, k))
  {
    if k > 0 {
      StepsKeep(s, t, k - 1);
      FireKeeps(Steps(s, t, k - 1), Step(t));
    }
  }

  /** A set whose table exists: one load, one store. */
  lemma {:induction false} StoreAtOnce(s: Sys, t: nat, w: Write)
    requires Inv(s) && t < |s.threads| && s.threads[t] == Load(w) && w.l1 < |s.level1| && s.level1[w.l1].Some?
    ensures var u := Steps(s, t, 2);
            && |u.threads| == |s.threads| && u.threads[t] == Idle && u.level1 == s.level1
            && u.abs == PutEntry(s.abs, (w.l1, w.l2), w.span)
  {
    assert ThreadOk(s, s.threads[t]);
    var s1 := Fire(s, Step(t));
    assert s1 == Steps(s, t, 1);
    assert s1.threads[t] == Store(w, s.level1[w.l1].value);
    assert Steps(s, t, 2) == Fire(s1, Step(t));
  }

  /** A set that has to publish a table first. */
  lemma {:induction false} PublishFirst(s: Sys, t: nat, w: Write)
    requires Inv(s) && t < |s.threads| && s.threads[t] == Load(w) && w.l1 < |s.level1|
    requires s.level1[w.l1].None? && s.lock.None?
    ensures var u := Steps(s, t, 6);
            && |u.threads| == |s.threads| && u.threads[t] == Store(w, |s.tables|) && |u.tables| == |s.tables| + 1
            && u.level1 == s.level1[w.l1 := Some(|s.tables|)] && u.abs == s.abs
  {
    hide Inv;
    var s1 := Fire(s, Step(t));
    assert s1 == Steps(s, t, 1) && s1.threads[t] == Lock(w);
    var s2 := Fire(s1, Step(t));
    assert s2 == Steps(s, t, 2) && s2.threads[t] == Recheck(w);
    var s3 := Fire(s2, Step(t));
    assert s3 == Steps(s, t, 3) && s3.threads[t] == Alloc(w);
    var s4 := Fire(s3, Step(t));
    assert s4 == Steps(s, t, 4) && s4.threads[t] == Publish(w, |s.tables|);
    var s5 := Fire(s4, Step(t));
    assert s5 == Steps(s, t, 5) && s5.threads[t] == Unlock(w, |s.tables|);
    assert Steps(s, t, 6) == Fire(s5, Step(t));
  }

  lemma {:induction false} IdleStays(s: Sys, t: nat, k: nat)
    requires t < |s.threads| && s.threads[t] == Idle
    ensures Steps(s, t, k) == s
  {
    if k > 0 {
      IdleStays(s, t, k - 1);
    }
  }

  lemma {:induction false} StepsAdd(s: Sys, t: nat, a: nat, b: nat)
    ensures Steps(Steps(s, t, a), t, b) == Steps(s, t, a + b)
  {
    hide Fire;
    if b > 0 {
      StepsAdd(s, t, a, b - 1);
    }
  }

  /** Seven steps of its thread complete a set, when nobody else moves and nobody holds the lock. */
  lemma {:induction false} SevenStepsSet(s: Sys, t: nat, w: Write)
    requires Inv(s) && t < |s.threads| && s.threads[t] == Load(w) && w.l1 < |s.level1| && s.lock.None?
    ensures var u := Steps(s, t, 7);
            && Inv(u) && |u.threads| == |s.threads| && u.threads[t] == Idle && |u.level1| == |s.level1|
            && u.abs == PutEntry(s.abs, (w.l1, w.l2), w.span)
  {
    StepsKeep(s, t, 7);
    if s.level1[w.l1].Some? {
      StoreAtOnce(s, t, w);
      StepsAdd(s, t, 2, 5);
      hide Inv, Fire, PutEntry;
      IdleStays(Steps(s, t, 2), t, 5);
    } else {
      PublishFirst(s, t, w);
      hide Inv;
      assert Steps(s, t, 7) == Fire(Steps(s, t, 6), Step(t));
    }
  }

  /** From every reachable state with the lock free, a set left alone is visible afterwards, and no other entry
      changes. */
  lemma {:induction false} SetTakesEffect(c: Config, schedule: seq<Action>, t: nat, w: Write, l1: nat, l2: nat)
    requires var s := Run(c, schedule);
             t < |s.threads| && s.threads[t] == Idle && w.l1 < |s.level1| && s.lock.None? && l1 < |s.level1|
    ensures var s := Run(c, schedule); var u := Steps(Fire(s, CallSet(t, w)), t, 7);
            && SlotsOk(s) && SlotsOk(u) && |u.level1| == |s.level1|
            && |u.threads| == |s.threads| && u.threads[t] == Idle
            && Visible(u, l1, l2) == if (l1, l2) == (w.l1, w.l2) then w.span else Visible(s, l1, l2)
  {
    RunKeeps(c, schedule);
    hide Run;
    var s := Run(c, schedule);
    var m := Fire(s, CallSet(t, w));
    FireKeeps(s, CallSet(t, w));
    assert m.threads[t] == Load(w) && m.abs == s.abs && m.level1 == s.level1 && m.lock == s.lock;
    SevenStepsSet(m, t, w);
    var u := Steps(m, t, 7);
    hide Steps, Fire;
    assert Visible(u, l1, l2) == Entry(u.abs, (l1, l2));
    assert Visible(s, l1, l2) == Entry(s.abs, (l1, l2));
  }
}
