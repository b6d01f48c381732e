/** Concurrent `track` calls on the page tracker (src/smash_compress_only.cpp): any number of
    threads, one atomic access per step.  The compare-exchange may be weak, that is, fail
    although the slot still holds the expected value. */
module PageTrackerRace {
  import opened ProbeTable

  datatype Pc = Idle | Load(page: nat, k: nat) | Cas(page: nat, k: nat) | Bump(page: nat)

  datatype Sys = Sys(slots: Slots, count: nat, threads: seq<Pc>)

  /** `spurious` asks for a compare-exchange to fail for no reason. */
  datatype Action = Call(thread: nat, page: nat) | Step(thread: nat, spurious: bool)

  datatype Config = Config(threads: nat, weak: bool)

  function Init(c: Config): Sys {
    Sys(seq(CAPACITY, _ => 0), 0, seq(c.threads, _ => Idle))
  }

  /** On to the next slot of the window, or give up silently. */
  function Next(page: nat, k: nat): Pc {
    if k + 1 < WINDOW then Load(page, k + 1) else Idle
  }

  function Move(c: Config, s: Sys, t: nat, spurious: bool): Sys
    requires t < |s.threads|
  {
    match s.threads[t]
    case Idle => s
    case Load(page, k) =>
      var cur := s.slots[Slot(page, k)];
      s.(threads := s.threads[t := if cur == page then Idle else if cur == 0 then Cas(page, k) else Next(page, k)])
    case Cas(page, k) =>
      var cur := s.slots[Slot(page, k)];
      if cur == 0 && !(c.weak && spurious) then
        s.(slots := s.slots[Slot(page, k) := page], threads := s.threads[t := Bump(page)])
      else
        s.(threads := s.threads[t := if cur == page then Idle else Next(page, k)])
    case Bump(page) => s.(count := s.count + 1, threads := s.threads[t := Idle])
  }

  function Fire(c: Config, s: Sys, a: Action): Sys {
    match a
    case Call(t, page) =>
      if t < |s.threads| && s.threads[t] == Idle && page != 0 then s.(threads := s.threads[t := Load(page, 0)]) else s
    case Step(t, spurious) => if t < |s.threads| then Move(c, s, t, spurious) else s
  }

  function Run(c: Config, schedule: seq<Action>): Sys {
    if schedule == [] then Init(c)
    else Fire(c, Run(c, schedule[..|schedule| - 1]), schedule[|schedule| - 1])
  }

  // -------------------------------------------------------------- both kinds of compare-exchange

  function Occupied(s: Slots): set<nat> {
    set i: nat | i < CAPACITY && s[i] != 0
  }

  /** Threads whose compare-exchange succeeded and is not counted yet. */
  function Uncounted(threads: seq<Pc>): set<nat> {
    set t: nat | t < |threads| && threads[t].Bump?
  }

  lemma {:induction false} UncountedAfter(threads: seq<Pc>, t: nat, pc: Pc)
    requires t < |threads|
    ensures |Uncounted(threads[t := pc])| ==
            |Uncounted(threads)| + (if pc.Bump? then 1 else 0) - (if threads[t].Bump? then 1 else 0)
  {
    var others := Uncounted(threads) - {t};
    assert Uncounted(threads) == if threads[t].Bump? then others + {t} else others;
    assert Uncounted(threads[t := pc]) == if pc.Bump? then others + {t} else others;
  }

  ghost predicate Accounted(s: Sys) {
    && |Occupied(s.slots)| == s.count + |Uncounted(s.threads)|
    && forall t :: 0 <= t < |s.threads| && !s.threads[t].Idle? ==> s.threads[t].page != 0
  }

  lemma {:induction false} FireAccounts(c: Config, s: Sys, a: Action)
    requires Accounted(s)
    ensures Accounted(Fire(c, s, a)) && Extends(s.slots, Fire(c, s, a).slots)
  {
    var u := Fire(c, s, a);
    var t := a.thread;
    if t < |s.threads| {
      UncountedAfter(s.threads, t, u.threads[t]);
      assert u.threads == s.threads[t := u.threads[t]];
      if a.Step? && s.threads[t].Cas? && u.threads[t].Bump? {
        var i := Slot(s.threads[t].page, s.threads[t].k);
        assert Occupied(u.slots) == Occupied(s.slots) + {i};
      }
    }
  }

  /** In every run, whatever the compare-exchange does, the taken slots are those counted plus
      those about to be counted. */
  lemma {:induction false} RunAccounts(c: Config, schedule: seq<Action>)
    ensures Accounted(Run(c, schedule))
  {
    if schedule == [] {
      assert Occupied(Init(c).slots) == {};
      assert Uncounted(Init(c).threads) == {};
    } else {
      RunAccounts(c, schedule[..|schedule| - 1]);
      FireAccounts(c, Run(c, schedule[..|schedule| - 1]), schedule[|schedule| - 1]);
    }
  }

  /** Slots are write-once over whole runs. */
  lemma {:induction false} SlotsAreWriteOnce(c: Config, early: seq<Action>, late: seq<Action>)
    requires early <= late
    ensures Extends(Run(c, early).slots, Run(c, late).slots)
  {
    if |early| < |late| {
      var m := |late| - 1;
      assert early <= late[..m];
      SlotsAreWriteOnce(c, early, late[..m]);
      RunAccounts(c, late[..m]);
      FireAccounts(c, Run(c, late[..m]), late[m]);
    } else {
      assert early == late;
    }
  }

  // -------------------------------------------------------------- a compare-exchange that fails only on a change

  /** A thread has seen every earlier slot of its window taken by another page. */
  predicate Probing(s: Slots, pc: Pc) {
    pc.Load? || pc.Cas? ==> pc.page != 0 && pc.k < WINDOW && TakenByOthers(s, pc.page, pc.k)
  }

  ghost predicate Inv(s: Sys) {
    && WellPlaced(s.slots)
    && |Pages(s.slots)| == s.count + |Uncounted(s.threads)|
    && forall t :: 0 <= t < |s.threads| ==> Probing(s.slots, s.threads[t])
  }

  lemma {:induction false} ProbeOn(s: Slots, page: nat, k: nat)
    requires Probing(s, Load(page, k)) && s[Slot(page, k)] != 0 && s[Slot(page, k)] != page
    ensures Probing(s, Next(page, k))
  {
  }

  /** A successful compare-exchange fills a slot nobody else relied on being empty. */
  lemma {:induction false} CasKeeps(c: Config, s: Sys, t: nat, spurious: bool)
    requires Inv(s) && !c.weak && t < |s.threads|
    requires s.threads[t].Cas? && s.slots[Slot(s.threads[t].page, s.threads[t].k)] == 0
    ensures Inv(Move(c, s, t, spurious))
  {
    var pc := s.threads[t];
    var u := Move(c, s, t, spurious);
    assert Probing(s.slots, pc);
    TakeSlot(s.slots, pc.page, pc.k);
    UncountedAfter(s.threads, t, Bump(pc.page));
    hide WellPlaced, Pages, Uncounted;
    forall q | 0 <= q < |u.threads| ensures Probing(u.slots, u.threads[q]) {
      assert Probing(s.slots, s.threads[q]);
    }
  }

  lemma {:induction false} LookKeeps(c: Config, s: Sys, t: nat, spurious: bool)
    requires Inv(s) && !c.weak && t < |s.threads|
    requires s.threads[t].Cas? ==> s.slots[Slot(s.threads[t].page, s.threads[t].k)] != 0
    ensures Inv(Move(c, s, t, spurious))
  {
    hide WellPlaced, Pages, Uncounted;
    var pc := s.threads[t];
    var u := Move(c, s, t, spurious);
    assert Probing(s.slots, pc);
    UncountedAfter(s.threads, t, u.threads[t]);
    assert u.threads == s.threads[t := u.threads[t]];
    if (pc.Load? || pc.Cas?) && s.slots[Slot(pc.page, pc.k)] != 0 && s.slots[Slot(pc.page, pc.k)] != pc.page {
      ProbeOn(s.slots, pc.page, pc.k);
    }
    forall q | 0 <= q < |u.threads| ensures Probing(u.slots, u.threads[q]) {
      assert Probing(s.slots, s.threads[q]);
    }
  }

  lemma {:induction false} MoveKeeps(c: Config, s: Sys, t: nat, spurious: bool)
    requires Inv(s) && !c.weak && t < |s.threads|
    ensures Inv(Move(c, s, t, spurious))
  {
    if s.threads[t].Cas? && s.slots[Slot(s.threads[t].page, s.threads[t].k)] == 0 {
      CasKeeps(c, s, t, spurious);
    } else {
      LookKeeps(c, s, t, spurious);
    }
  }

  lemma {:induction false} RunKeeps(c: Config, schedule: seq<Action>)
    requires !c.weak
    ensures Inv(Run(c, schedule))
  {
    if schedule == [] {
      assert Pages(Init(c).slots) == {};
      assert Uncounted(Init(c).threads) == {};
    } else {
      var m := |schedule| - 1;
      RunKeeps(c, schedule[..m]);
      var s := Run(c, schedule[..m]);
      match schedule[m]
      case Call(t, page) => if t < |s.threads| { UncountedAfter(s.threads, t, Load(page, 0)); }
      case Step(t, spurious) => if t < |s.threads| { MoveKeeps(c, s, t, spurious); }
    }
  }

  /** No run puts a page into two slots, and every page is where a later probe finds it;
      the pages are those counted plus those about to be counted. */
  lemma {:induction false} StrongIsASet(c: Config, schedule: seq<Action>)
    requires !c.weak
    ensures var s := Run(c, schedule);
            && WellPlaced(s.slots)
            && (forall i, j :: 0 <= i < j < CAPACITY && s.slots[i] != 0 ==> s.slots[i] != s.slots[j])
            && |Pages(s.slots)| == s.count + |Uncounted(s.threads)|
  {
    RunKeeps(c, schedule);
    var s := Run(c, schedule);
    forall i, j | 0 <= i < j < CAPACITY && s.slots[i] != 0 ensures s.slots[i] != s.slots[j] {
      PlacedOnce(s.slots, i, j);
    }
  }

  // -------------------------------------------------------------- a weak compare-exchange

  lemma {:induction false} Extend(c: Config, schedule: seq<Action>, a: Action) returns (longer: seq<Action>)
    ensures longer == schedule + [a] && Run(c, longer) == Fire(c, Run(c, schedule), a)
  {
    longer := schedule + [a];
    assert longer[..|schedule|] == schedule;
  }

  /** A spurious failure at slot 1 sends the page on to slot 2. */
  lemma {:induction false} WeakMovesOn(c: Config) returns (schedule: seq<Action>)
    requires c.weak && c.threads > 0
    ensures Run(c, schedule) == Init(c).(threads := Init(c).threads[0 := Load(PAGE, 1)])
  {
    schedule := Extend(c, [], Call(0, PAGE));
    schedule := Extend(c, schedule, Step(0, false));
    schedule := Extend(c, schedule, Step(0, true));
  }

  lemma {:induction false} WeakSkipsAnEmptySlot(c: Config) returns (schedule: seq<Action>)
    requires c.weak && c.threads > 0
    ensures Run(c, schedule) == Sys(Init(c).slots[2 := PAGE], 1, Init(c).threads)
  {
    hide Run;
    schedule := WeakMovesOn(c);
    schedule := Extend(c, schedule, Step(0, false));
    schedule := Extend(c, schedule, Step(0, false));
    schedule := Extend(c, schedule, Step(0, false));
  }

  /** One thread, one page, one spurious failure: the page ends up in two slots and is counted twice. */
  lemma {:induction false} WeakCanDuplicate(c: Config) returns (schedule: seq<Action>)
    requires c.weak && c.threads > 0
    ensures var s := Run(c, schedule);
            && (exists i, j :: 0 <= i < j < CAPACITY && s.slots[i] == s.slots[j] != 0)
            && s.count == 2 && |Pages(s.slots)| == 1
  {
    hide Run;
    schedule := WeakSkipsAnEmptySlot(c);
    schedule := Extend(c, schedule, Call(0, PAGE));
    schedule := Extend(c, schedule, Step(0, false));
    schedule := Extend(c, schedule, Step(0, false));
    schedule := Extend(c, schedule, Step(0, false));
    var s := Run(c, schedule);
    assert s == Sys(Init(c).slots[2 := PAGE][1 := PAGE], 2, Init(c).threads);
    assert s.slots[1] == s.slots[2] == PAGE;
    assert Pages(s.slots) == {PAGE};
  }

  // -------------------------------------------------------------- exact condition

  /** No page sits in two slots. */
  predicate NoDuplicate(s: Sys) {
    forall i, j :: 0 <= i < j < CAPACITY && s.slots[i] != 0 ==> s.slots[i] != s.slots[j]
  }

  ghost predicate SetRun(c: Config, schedule: seq<Action>) {
    NoDuplicate(Run(c, schedule))
  }

  /** A run in which no compare-exchange fails for no reason. */
  predicate Steady(schedule: seq<Action>) {
    forall k :: 0 <= k < |schedule| ==> !(schedule[k].Step? && schedule[k].spurious)
  }

  /** Without spurious failures the weak machine is the strong one. */
  lemma {:induction false} SteadyIsStrong(c: Config, schedule: seq<Action>)
    requires Steady(schedule)
    ensures Run(c, schedule) == Run(c.(weak := false), schedule)
  {
    if schedule != [] {
      SteadyIsStrong(c, schedule[..|schedule| - 1]);
    }
  }

  /** So each such run keeps a set, whatever the compare-exchange. */
  lemma {:induction false} SteadyIsASet(c: Config, schedule: seq<Action>)
    requires Steady(schedule)
    ensures SetRun(c, schedule)
  {
    SteadyIsStrong(c, schedule);
    hide Run;
    StrongIsASet(c.(weak := false), schedule);
  }

  lemma {:induction false} NoThreadsNoPages(c: Config, schedule: seq<Action>)
    requires c.threads == 0
    ensures Run(c, schedule) == Init(c)
  {
    if schedule != [] {
      NoThreadsNoPages(c, schedule[..|schedule| - 1]);
    }
  }

  /** No run stores a page twice if and only if the compare-exchange cannot fail for no reason, or there
      is nobody to call. */
  lemma {:induction false} SetIffStrong(c: Config)
    ensures (forall schedule :: SetRun(c, schedule)) <==> !c.weak || c.threads == 0
  {
    if c.weak && c.threads > 0 {
      var schedule := WeakCanDuplicate(c);
      assert !SetRun(c, schedule);
    } else {
      forall schedule ensures SetRun(c, schedule) {
        if c.weak {
          NoThreadsNoPages(c, schedule);
        } else {
          StrongIsASet(c, schedule);
        }
      }
    }
  }

  // -------------------------------------------------------------- a call that is left alone

  function Alone(c: Config, s: Sys, t: nat, n: nat): Sys {
    if n == 0 then s else Fire(c, Alone(c, s, t, n - 1), Step(t, false))
  }

  /** While the slots it loads are taken by others, the thread goes on along its window. */
  lemma {:induction false} LoadsOn(c: Config, s: Sys, t: nat, page: nat, n: nat)
    requires t < |s.threads| && s.threads[t] == Load(page, 0) && TakenByOthers(s.slots, page, n) && n <= WINDOW
    ensures Alone(c, s, t, n) == s.(threads := s.threads[t := if n < WINDOW then Load(page, n) else Idle])
  {
    if n > 0 {
      LoadsOn(c, s, t, page, n - 1);
      assert s.slots[Slot(page, n - 1)] != 0 && s.slots[Slot(page, n - 1)] != page;
    } else {
      assert s.threads[t := Load(page, 0)] == s.threads;
    }
    hide Slot, TakenByOthers;
  }

  /** The call takes the first empty slot of its window and counts it; it changes nothing when the page comes
      first, or when the window is full. */
  lemma {:induction false} AloneTracks(c: Config, s: Sys, t: nat, page: nat, k: nat)
    requires t < |s.threads| && s.threads[t] == Idle && page != 0
    requires k <= WINDOW && TakenByOthers(s.slots, page, k)
    ensures var u := Fire(c, s, Call(t, page));
            && (k == WINDOW ==> Alone(c, u, t, WINDOW) == s)
            && (k < WINDOW && s.slots[Slot(page, k)] == page ==> Alone(c, u, t, k + 1) == s)
            && (k < WINDOW && s.slots[Slot(page, k)] == 0 ==>
                  Alone(c, u, t, k + 3) == s.(slots := s.slots[Slot(page, k) := page], count := s.count + 1))
  {
    var u := Fire(c, s, Call(t, page));
    LoadsOn(c, u, t, page, k);
    hide Slot, TakenByOthers;
    assert u.threads[t := Idle] == s.threads && s.threads[t := Idle] == s.threads;
    var v := Alone(c, u, t, k);
    assert Alone(c, u, t, k + 1) == Fire(c, v, Step(t, false));
    assert Alone(c, u, t, k + 2) == Fire(c, Alone(c, u, t, k + 1), Step(t, false));
    assert Alone(c, u, t, k + 3) == Fire(c, Alone(c, u, t, k + 2), Step(t, false));
    hide Alone;
    if k < WINDOW {
      assert v == u.(threads := u.threads[t := Load(page, k)]);
      if s.slots[Slot(page, k)] == 0 {
        assert Alone(c, u, t, k + 1).threads[t] == Cas(page, k);
        assert Alone(c, u, t, k + 2).threads[t] == Bump(page);
        assert Alone(c, u, t, k + 3).threads == s.threads;
      } else if s.slots[Slot(page, k)] == page {
        assert Alone(c, u, t, k + 1).threads == s.threads;
      }
    }
  }
}
