/** The allocator / compressor page machine of model/SmashCore.tla, at the level of its
    processes: every application thread and compressor worker has its own program
    counter, and the decommit thread its own.  Any number of pages, application threads
    and compressor workers; a run is any finite interleaving of their steps. */
module SmashCore {

  datatype PState = Empty | Active | ActiveMonitoring | Compressing | Compressed | CompressedShadow
  datatype Prot = ProtRW | ProtRead | ProtNone
  datatype Holder = Nobody | App(app: nat) | Comp(comp: nat)

  datatype Page = Page(state: PState, prot: Prot, lock: Holder, cold: nat, accessed: bool,
                       hasBlob: bool, hasPhysical: bool)

  /** Application thread: about to pick, to access, to lock or handle a fault, or to free. */
  datatype AppPc = AppLoop | AppAccess(p: nat) | FaultLock(p: nat) | FaultHandle(p: nat) | AppFree(p: nat)

  datatype DecPc = DecIdle | DecCommit(p: nat) | DecMadvise(p: nat) | DecPush(p: nat)

  /** Compressor worker: a phase and its page cursor, or the inner labels of a phase. */
  datatype CompPc =
    | Phase1(p: nat)
    | Phase2(p: nat) | P2Lock(p: nat) | P2Compress(p: nat) | P2Finish(p: nat)
    | Phase3(p: nat) | P3CAS(p: nat) | P3Prot(p: nat)
    | PhaseB(p: nat) | PBLock(p: nat) | PBProtRead(p: nat) | PBVerify(p: nat) | PBReclaim(p: nat)

  /** `buggy` selects the decommit path that skips the protection restore. */
  datatype Config = Config(pages: nat, apps: nat, comps: nat, coldThreshold: nat, buggy: bool)

  datatype Sys = Sys(pages: seq<Page>, apps: seq<AppPc>, comps: seq<CompPc>, dec: DecPc,
                     decommitQ: set<nat>, freeList: set<nat>)

  /** How a compression ends: reclaimed at once, reclaimed later, or failing the ratio gate. */
  datatype Outcome = Reclaim | Defer | RatioFail

  /** A scheduling choice.  A choice whose process cannot move leaves the system unchanged. */
  datatype Action =
    | AppPick(app: nat, page: nat, free: bool)
    | AppStep(app: nat)
    | AllocPop(page: nat)
    | DecPick(page: nat)
    | DecStep
    | CompStep(comp: nat, outcome: Outcome)

  const FRESH_PAGE := Page(Active, ProtRW, Nobody, 0, false, false, true)

  function Init(c: Config): Sys {
    Sys(seq(c.pages, _ => FRESH_PAGE), seq(c.apps, _ => AppLoop), seq(c.comps, _ => Phase1(0)), DecIdle, {}, {})
  }

  // -------------------------------------------------------------- application threads

  function Handle(g: Page): Page {
    match g.state
    case Compressed =>
      g.(state := Active, prot := ProtRW, hasPhysical := true, hasBlob := false, cold := 0, accessed := true)
    case ActiveMonitoring => g.(state := Active, prot := ProtRW, cold := 0, accessed := true)
    case CompressedShadow => g.(state := Active, prot := ProtRW, hasBlob := false, cold := 0, accessed := true)
    case Active => g.(prot := ProtRW)
    case Empty => g
    case Compressing => g
  }

  function Freed(g: Page): Page {
    g.(state := Empty, hasBlob := false, hasPhysical := false, cold := 0, accessed := false)
  }

  /** One application step on its page; `queued` says the page is already on a queue.
      Returns the new label, the new page and whether the page was freed. */
  function AppOn(t: nat, pc: AppPc, g: Page, queued: bool): (AppPc, Page, bool) {
    match pc
    case AppLoop => (pc, g, false)
    case AppAccess(p) =>
      if g.state == Empty then (AppLoop, g, false)
      else if g.prot == ProtRW then (AppLoop, g.(accessed := true), false)
      else (FaultLock(p), g, false)
    case FaultLock(p) =>
      if g.lock != Nobody then (pc, g, false) else (FaultHandle(p), g.(lock := App(t)), false)
    case FaultHandle(p) => (AppLoop, Handle(g).(lock := Nobody), false)
    case AppFree(p) =>
      if g.state != Empty && !queued && g.lock == Nobody then (AppLoop, Freed(g), true) else (AppLoop, g, false)
  }

  function AppMove(s: Sys, t: nat): Sys
    requires t < |s.apps|
  {
    var pc := s.apps[t];
    if pc.AppLoop? || pc.p >= |s.pages| then s
    else
      var p := pc.p;
      var (next, g, freed) := AppOn(t, pc, s.pages[p], p in s.freeList || p in s.decommitQ);
      s.(apps := s.apps[t := next], pages := s.pages[p := g],
         decommitQ := if freed then s.decommitQ + {p} else s.decommitQ)
  }

  // -------------------------------------------------------------- allocator and decommit thread

  function Pop(s: Sys, p: nat): Sys {
    if p !in s.freeList || p >= |s.pages| then s
    else
      var g := s.pages[p];
      s.(freeList := s.freeList - {p},
         pages := s.pages[p := if g.state == Empty then g.(state := Active, hasPhysical := true) else g])
  }

  function Drain(s: Sys, p: nat): Sys {
    if s.dec != DecIdle || p !in s.decommitQ then s
    else s.(dec := DecCommit(p), decommitQ := s.decommitQ - {p})
  }

  function DecMove(c: Config, s: Sys): Sys {
    match s.dec
    case DecIdle => s
    case DecCommit(p) =>
      s.(dec := DecMadvise(p),
         pages := if c.buggy || p >= |s.pages| then s.pages else s.pages[p := s.pages[p].(prot := ProtRW)])
    case DecMadvise(p) => s.(dec := DecPush(p))
    case DecPush(p) => s.(dec := DecIdle, freeList := s.freeList + {p})
  }

  // -------------------------------------------------------------- compressor workers

  function Tick(c: Config, g: Page): Page {
    if g.state == Empty then g
    else if g.accessed then g.(cold := 0, accessed := false)
    else g.(cold := if g.cold < c.coldThreshold + 1 then g.cold + 1 else c.coldThreshold + 1)
  }

  function Compress(g: Page, outcome: Outcome): Page {
    match outcome
    case Reclaim => g.(state := Compressed, prot := ProtNone, hasBlob := true, hasPhysical := false)
    case Defer => g.(state := CompressedShadow, prot := ProtRW, hasBlob := true)
    case RatioFail => g.(state := Active, prot := ProtRW, cold := 0)
  }

  predicate Compressible(g: Page) {
    g.state == Active || g.state == ActiveMonitoring
  }

  /** The next label of a worker that has run past the last page of its phase. */
  function NextPhase(pc: CompPc): CompPc {
    match pc
    case Phase1(_) => Phase2(0)
    case Phase2(_) => Phase3(0)
    case Phase3(_) => PhaseB(0)
    case _ => Phase1(0)
  }

  /** One worker step on the page under its cursor: the new label and the new page. */
  function CompOn(c: Config, id: nat, pc: CompPc, g: Page, outcome: Outcome): (CompPc, Page) {
    match pc
    case Phase1(p) => (Phase1(p + 1), Tick(c, g))
    case Phase2(p) => (if Compressible(g) && g.cold > c.coldThreshold then P2Lock(p) else Phase2(p + 1), g)
    case P2Lock(p) =>
      if g.lock != Nobody then (pc, g)
      else if Compressible(g) then (P2Compress(p), g.(lock := Comp(id), state := Compressing))
      else (Phase2(p + 1), g)
    case P2Compress(p) => (P2Finish(p), g.(prot := ProtRead))
    case P2Finish(p) => (Phase2(p + 1), Compress(g, outcome).(lock := Nobody))
    case Phase3(p) => (if g.state == Active then P3CAS(p) else Phase3(p + 1), g)
    case P3CAS(p) => if g.state == Active then (P3Prot(p), g.(state := ActiveMonitoring)) else (Phase3(p + 1), g)
    case P3Prot(p) => (Phase3(p + 1), if g.state == ActiveMonitoring then g.(prot := ProtRead) else g)
    case PhaseB(p) => (if g.state == CompressedShadow then PBLock(p) else PhaseB(p + 1), g)
    case PBLock(p) =>
      if g.lock != Nobody then (pc, g)
      else if g.state == CompressedShadow then (PBProtRead(p), g.(lock := Comp(id)))
      else (PhaseB(p + 1), g)
    case PBProtRead(p) => (PBVerify(p), g.(prot := ProtRead))
    case PBVerify(p) =>
      if g.state != CompressedShadow then (PhaseB(p + 1), g.(lock := Nobody))
      else if g.accessed then
        (PhaseB(p + 1),
         g.(state := Active, prot := ProtRW, hasBlob := false, cold := 0, accessed := false, lock := Nobody))
      else (PBReclaim(p), g)
    case PBReclaim(p) =>
      (PhaseB(p + 1), g.(state := Compressed, prot := ProtNone, hasPhysical := false, lock := Nobody))
  }

  function CompMove(c: Config, s: Sys, id: nat, outcome: Outcome): Sys
    requires id < |s.comps|
  {
    var pc := s.comps[id];
    if pc.p >= |s.pages| then s.(comps := s.comps[id := NextPhase(pc)])
    else
      var (next, g) := CompOn(c, id, pc, s.pages[pc.p], outcome);
      s.(comps := s.comps[id := next], pages := s.pages[pc.p := g])
  }

  // -------------------------------------------------------------- runs

  function Fire(c: Config, s: Sys, a: Action): Sys {
    match a
    case AppPick(t, p, free) =>
      if t < |s.apps| && p < |s.pages| && s.apps[t] == AppLoop
      then s.(apps := s.apps[t := if free then AppFree(p) else AppAccess(p)]) else s
    case AppStep(t) => if t < |s.apps| then AppMove(s, t) else s
    case AllocPop(p) => Pop(s, p)
    case DecPick(p) => Drain(s, p)
    case DecStep => DecMove(c, s)
    case CompStep(id, outcome) => if id < |s.comps| then CompMove(c, s, id, outcome) else s
  }

  function Run(c: Config, schedule: seq<Action>): Sys {
    if schedule == [] then Init(c)
    else Fire(c, Run(c, schedule[..|schedule| - 1]), schedule[|schedule| - 1])
  }

  // -------------------------------------------------------------- safety

  predicate BlobIntegrity(g: Page) {
    && (g.state == Compressed ==> g.hasBlob && !g.hasPhysical)
    && (g.state == Active ==> !g.hasBlob && g.hasPhysical)
    && (g.state == Compressing ==> !g.hasBlob && g.hasPhysical)
    && (g.state == CompressedShadow ==> g.hasBlob && g.hasPhysical)
    && (g.state == Empty ==> !g.hasBlob && !g.hasPhysical)
  }

  predicate ProtectionSafety(g: Page) {
    && (g.state == Compressed ==> g.prot == ProtNone)
    && (g.state == Active ==> g.prot != ProtNone)
    && (g.state == CompressedShadow ==> g.prot != ProtNone)
  }

  predicate ActiveImpliesRW(g: Page) {
    g.state == Active ==> g.prot == ProtRW
  }

  predicate Safe(s: Sys) {
    forall p :: 0 <= p < |s.pages| ==>
      BlobIntegrity(s.pages[p]) && ProtectionSafety(s.pages[p]) && ActiveImpliesRW(s.pages[p])
  }

  // -------------------------------------------------------------- the inductive invariant

  /** Labels at which a worker holds the lock of the page under its cursor. */
  predicate Squeezing(pc: CompPc) { pc.P2Compress? || pc.P2Finish? }
  predicate Verifying(pc: CompPc) { pc.PBProtRead? || pc.PBVerify? || pc.PBReclaim? }
  predicate Holding(pc: CompPc) { Squeezing(pc) || Verifying(pc) }

  /** The state of a page locked by a worker at label pc. */
  predicate LockedState(pc: CompPc, state: PState) {
    (Squeezing(pc) <==> state == Compressing) && (Verifying(pc) <==> state == CompressedShadow)
  }

  predicate GoodPage(g: Page) {
    match g.state
    case Empty => !g.hasBlob && !g.hasPhysical
    case Active => !g.hasBlob && g.hasPhysical && g.prot == ProtRW
    case ActiveMonitoring => !g.hasBlob && g.hasPhysical
    case Compressing => !g.hasBlob && g.hasPhysical && g.lock.Comp?
    case Compressed => g.hasBlob && !g.hasPhysical && g.prot == ProtNone
    case CompressedShadow => g.hasBlob && g.hasPhysical && g.prot != ProtNone
  }

  /** A page lock held by a process is held at exactly the labels that hold it. */
  predicate LockMatches(s: Sys, p: nat)
    requires p < |s.pages|
  {
    match s.pages[p].lock
    case Nobody => true
    case App(t) => t < |s.apps| && s.apps[t] == FaultHandle(p)
    case Comp(id) =>
      && id < |s.comps|
      && s.comps[id].p == p && Holding(s.comps[id]) && LockedState(s.comps[id], s.pages[p].state)
  }

  ghost predicate PagesInv(s: Sys) {
    forall p :: 0 <= p < |s.pages| ==> GoodPage(s.pages[p]) && LockMatches(s, p)
  }

  ghost predicate AppsInv(s: Sys) {
    forall t :: 0 <= t < |s.apps| && s.apps[t].FaultHandle? && s.apps[t].p < |s.pages| ==>
      s.pages[s.apps[t].p].lock == App(t)
  }

  ghost predicate CompsInv(s: Sys) {
    forall id :: 0 <= id < |s.comps| && Holding(s.comps[id]) && s.comps[id].p < |s.pages| ==>
      s.pages[s.comps[id].p].lock == Comp(id)
  }

  /** Pages on their way through decommit are empty; once restored they stay readable and writable. */
  ghost predicate QueuesInv(s: Sys) {
    && (forall p :: p in s.decommitQ ==> p < |s.pages| && s.pages[p].state == Empty)
    && (forall p :: p in s.freeList ==> p < |s.pages| && s.pages[p].state == Empty && s.pages[p].prot == ProtRW)
    && s.decommitQ !! s.freeList
    && (!s.dec.DecIdle? ==>
          && s.dec.p < |s.pages| && s.pages[s.dec.p].state == Empty
          && s.dec.p !in s.decommitQ && s.dec.p !in s.freeList
          && (s.dec.DecCommit? || s.pages[s.dec.p].prot == ProtRW))
  }

  ghost predicate Inv(s: Sys) {
    PagesInv(s) && AppsInv(s) && CompsInv(s) && QueuesInv(s)
  }

  /** What any step may do to a page without disturbing the other processes. */
  predicate Harmless(g: Page, h: Page) {
    && GoodPage(h)
    && (g.state == Empty ==> h.state == Empty && h.prot == g.prot)
    && (g.lock.Comp? && h.lock == g.lock ==>
          && (g.state == Compressing <==> h.state == Compressing)
          && (g.state == CompressedShadow <==> h.state == CompressedShadow))
  }

  lemma {:induction false} AppOnLocal(t: nat, pc: AppPc, g: Page, queued: bool)
    requires GoodPage(g)
    requires pc.FaultHandle? ==> g.lock == App(t)
    ensures var (next, h, freed) := AppOn(t, pc, g, queued);
            && Harmless(g, h)
            && (if next.FaultHandle? then next.p == pc.p && g.lock == Nobody && h.lock == App(t)
                else h.lock == if pc.FaultHandle? then Nobody else g.lock)
            && (freed ==> h.state == Empty && g.state != Empty && !queued && g.lock == Nobody)
  {
  }

  /** Replacing thread t's label and its page keeps the invariant. */
  lemma {:induction false} AppFrame(s: Sys, t: nat, next: AppPc, h: Page, freed: bool)
    requires Inv(s) && t < |s.apps| && !s.apps[t].AppLoop? && s.apps[t].p < |s.pages|
    requires var g := s.pages[s.apps[t].p]; var p := s.apps[t].p;
             && Harmless(g, h)
             && (if next.FaultHandle? then next.p == p && g.lock == Nobody && h.lock == App(t)
                 else h.lock == if s.apps[t].FaultHandle? then Nobody else g.lock)
             && (freed ==> h.state == Empty && g.state != Empty && p !in s.freeList && p !in s.decommitQ
                           && g.lock == Nobody)
    ensures var p := s.apps[t].p;
            Inv(s.(apps := s.apps[t := next], pages := s.pages[p := h],
                   decommitQ := if freed then s.decommitQ + {p} else s.decommitQ))
  {
    var p := s.apps[t].p;
    var u := s.(apps := s.apps[t := next], pages := s.pages[p := h],
                decommitQ := if freed then s.decommitQ + {p} else s.decommitQ);
    forall q | 0 <= q < |u.pages| ensures LockMatches(u, q) {
      assert LockMatches(s, q);
    }
    assert AppsInv(u);
    assert CompsInv(u) by {
      assert LockMatches(s, p);
    }
    assert QueuesInv(u);
  }

  /** Replacing worker id's label and the page under its cursor keeps the invariant. */
  lemma {:induction false} CompFrame(s: Sys, id: nat, next: CompPc, h: Page)
    requires Inv(s) && id < |s.comps| && s.comps[id].p < |s.pages|
    requires var g := s.pages[s.comps[id].p];
             && Harmless(g, h)
             && (if Holding(next) then next.p == s.comps[id].p && h.lock == Comp(id) && LockedState(next, h.state)
                                       && (g.lock == Nobody || g.lock == Comp(id))
                 else h.lock == if g.lock == Comp(id) then Nobody else g.lock)
    ensures Inv(s.(comps := s.comps[id := next], pages := s.pages[s.comps[id].p := h]))
  {
    var p := s.comps[id].p;
    var u := s.(comps := s.comps[id := next], pages := s.pages[p := h]);
    forall q | 0 <= q < |u.pages| ensures LockMatches(u, q) {
      assert LockMatches(s, q);
    }
    assert LockMatches(s, p);
    assert AppsInv(u);
    assert CompsInv(u);
    assert QueuesInv(u);
  }

  lemma {:induction false} CompOnLocal(c: Config, id: nat, pc: CompPc, g: Page, outcome: Outcome)
    requires GoodPage(g)
    requires Holding(pc) <==> g.lock == Comp(id)
    requires Holding(pc) ==> LockedState(pc, g.state)
    ensures var (next, h) := CompOn(c, id, pc, g, outcome);
            && Harmless(g, h)
            && (if Holding(next) then next.p == pc.p && h.lock == Comp(id) && LockedState(next, h.state)
                                      && (g.lock == Nobody || g.lock == Comp(id))
                else h.lock == if g.lock == Comp(id) then Nobody else g.lock)
  {
  }

  lemma {:induction false} CompMoveKeeps(c: Config, s: Sys, id: nat, outcome: Outcome)
    requires Inv(s) && id < |s.comps|
    ensures Inv(CompMove(c, s, id, outcome))
  {
    var pc := s.comps[id];
    if pc.p < |s.pages| {
      assert LockMatches(s, pc.p);
      CompOnLocal(c, id, pc, s.pages[pc.p], outcome);
      var (next, h) := CompOn(c, id, pc, s.pages[pc.p], outcome);
      CompFrame(s, id, next, h);
    } else {
      var u := CompMove(c, s, id, outcome);
      forall q | 0 <= q < |u.pages| ensures LockMatches(u, q) {
        assert LockMatches(s, q);
      }
    }
  }

  lemma {:induction false} AppMoveKeeps(s: Sys, t: nat)
    requires Inv(s) && t < |s.apps|
    ensures Inv(AppMove(s, t))
  {
    var pc := s.apps[t];
    if !pc.AppLoop? && pc.p < |s.pages| {
      var p := pc.p;
      var queued := p in s.freeList || p in s.decommitQ;
      AppOnLocal(t, pc, s.pages[p], queued);
      var (next, h, freed) := AppOn(t, pc, s.pages[p], queued);
      AppFrame(s, t, next, h, freed);
    }
  }

  lemma {:induction false} PopKeeps(s: Sys, p: nat)
    requires Inv(s)
    ensures Inv(Pop(s, p))
  {
  }

  lemma {:induction false} DecommitKeeps(c: Config, s: Sys, p: nat)
    requires Inv(s) && !c.buggy
    ensures Inv(Drain(s, p)) && Inv(DecMove(c, s))
  {
  }

  lemma {:induction false} PickKeeps(c: Config, s: Sys, t: nat, p: nat, free: bool)
    requires Inv(s)
    ensures Inv(Fire(c, s, AppPick(t, p, free)))
  {
    var u := Fire(c, s, AppPick(t, p, free));
    forall q | 0 <= q < |u.pages| ensures LockMatches(u, q) {
      assert LockMatches(s, q);
    }
  }

  lemma {:induction false} FireKeeps(c: Config, s: Sys, a: Action)
    requires Inv(s) && !c.buggy
    ensures Inv(Fire(c, s, a))
  {
    match a
    case AppPick(t, p, free) => PickKeeps(c, s, t, p, free);
    case AppStep(t) => if t < |s.apps| { AppMoveKeeps(s, t); }
    case AllocPop(p) => PopKeeps(s, p);
    case DecPick(p) => DecommitKeeps(c, s, p);
    case DecStep => DecommitKeeps(c, s, 0);
    case CompStep(id, outcome) => if id < |s.comps| { CompMoveKeeps(c, s, id, outcome); }
  }

  lemma {:induction false} RunKeeps(c: Config, schedule: seq<Action>)
    requires !c.buggy
    ensures Inv(Run(c, schedule))
  {
    if schedule != [] {
      var m := |schedule| - 1;
      RunKeeps(c, schedule[..m]);
      FireKeeps(c, Run(c, schedule[..m]), schedule[m]);
    }
  }

  /** Every reachable state of the fixed machine is safe: any pages, any threads, any interleaving. */
  lemma {:induction false} FixedIsSafe(c: Config, schedule: seq<Action>)
    requires !c.buggy
    ensures Safe(Run(c, schedule))
  {
    RunKeeps(c, schedule);
  }

  // -------------------------------------------------------------- the decommit path without the restore

  ghost predicate Reachable(c: Config, s: Sys) {
    exists schedule :: Run(c, schedule) == s
  }

  lemma {:induction false} ReachFire(c: Config, s: Sys, a: Action)
    requires Reachable(c, s)
    ensures Reachable(c, Fire(c, s, a))
  {
    var schedule :| Run(c, schedule) == s;
    assert (schedule + [a])[..|schedule|] == schedule;
    assert Run(c, schedule + [a]) == Fire(c, s, a);
  }

  /** Worker 0 at label pc, the first k pages as `left`, the others as `right`, everything else initial. */
  ghost function Stage(c: Config, pc: CompPc, k: nat, left: Page, right: Page): Sys
    requires c.comps > 0
  {
    Init(c).(comps := Init(c).comps[0 := pc], pages := seq(c.pages, q => if q < k then left else right))
  }

  const TOUCHED := FRESH_PAGE.(accessed := true)

  /** Thread 0 can touch all pages first, so that no page is cold. */
  lemma {:induction false} ReachTouched(c: Config, k: nat)
    requires c.comps > 0 && c.apps > 0 && k <= c.pages
    ensures Reachable(c, Stage(c, Phase1(0), k, TOUCHED, FRESH_PAGE))
  {
    if k == 0 {
      assert Stage(c, Phase1(0), 0, TOUCHED, FRESH_PAGE) == Init(c);
      assert Run(c, []) == Init(c);
    } else {
      ReachTouched(c, k - 1);
      var s := Stage(c, Phase1(0), k - 1, TOUCHED, FRESH_PAGE);
      var u := Fire(c, s, AppPick(0, k - 1, false));
      ReachFire(c, s, AppPick(0, k - 1, false));
      ReachFire(c, u, AppStep(0));
      assert Fire(c, u, AppStep(0)) == Stage(c, Phase1(0), k, TOUCHED, FRESH_PAGE);
    }
  }

  lemma {:induction false} ReachPhase1(c: Config, k: nat)
    requires c.comps > 0 && c.apps > 0 && k <= c.pages
    ensures Reachable(c, Stage(c, Phase1(k), k, FRESH_PAGE, TOUCHED))
  {
    hide Reachable;
    if k == 0 {
      ReachTouched(c, c.pages);
      assert Stage(c, Phase1(0), c.pages, TOUCHED, FRESH_PAGE) == Stage(c, Phase1(0), 0, FRESH_PAGE, TOUCHED);
    } else {
      ReachPhase1(c, k - 1);
      var s := Stage(c, Phase1(k - 1), k - 1, FRESH_PAGE, TOUCHED);
      ReachFire(c, s, CompStep(0, Reclaim));
      assert Fire(c, s, CompStep(0, Reclaim)) == Stage(c, Phase1(k), k, FRESH_PAGE, TOUCHED);
    }
  }

  lemma {:induction false} ReachPhase2(c: Config, k: nat)
    requires c.comps > 0 && c.apps > 0 && k <= c.pages
    ensures Reachable(c, Stage(c, Phase2(k), 0, FRESH_PAGE, FRESH_PAGE))
  {
    if k == 0 {
      ReachPhase1(c, c.pages);
      var s := Stage(c, Phase1(c.pages), c.pages, FRESH_PAGE, TOUCHED);
      ReachFire(c, s, CompStep(0, Reclaim));
      assert Fire(c, s, CompStep(0, Reclaim)) == Stage(c, Phase2(0), 0, FRESH_PAGE, FRESH_PAGE);
    } else {
      ReachPhase2(c, k - 1);
      var s := Stage(c, Phase2(k - 1), 0, FRESH_PAGE, FRESH_PAGE);
      ReachFire(c, s, CompStep(0, Reclaim));
      assert Fire(c, s, CompStep(0, Reclaim)) == Stage(c, Phase2(k), 0, FRESH_PAGE, FRESH_PAGE);
    }
  }

  /** Monitoring makes page 0 read-only. */
  lemma {:induction false} ReachMonitored(c: Config) returns (s: Sys)
    requires c.comps > 0 && c.apps > 0 && c.pages > 0
    ensures Reachable(c, s)
    ensures |s.pages| == c.pages && s.pages[0] == FRESH_PAGE.(state := ActiveMonitoring, prot := ProtRead)
    ensures |s.apps| == c.apps && s.apps[0] == AppLoop && s.dec == DecIdle && s.freeList == s.decommitQ == {}
  {
    ReachPhase2(c, c.pages);
    s := Stage(c, Phase2(c.pages), 0, FRESH_PAGE, FRESH_PAGE);
    var go := CompStep(0, Reclaim);
    ReachFire(c, s, go);
    s := Fire(c, s, go);
    assert s == Stage(c, Phase3(0), 0, FRESH_PAGE, FRESH_PAGE);
    ReachFire(c, s, go);
    s := Fire(c, s, go);
    ReachFire(c, s, go);
    s := Fire(c, s, go);
    ReachFire(c, s, go);
    s := Fire(c, s, go);
  }

  /** Freed while read-only and pushed without the restore, page 0 comes back active and read-only. */
  lemma {:induction false} BuggyReachesUnsafe(c: Config) returns (s: Sys)
    requires c.buggy && c.comps > 0 && c.apps > 0 && c.pages > 0
    ensures Reachable(c, s) && !Safe(s)
  {
    hide Reachable, CompMove;
    s := ReachMonitored(c);
    ReachFire(c, s, AppPick(0, 0, true));
    s := Fire(c, s, AppPick(0, 0, true));
    ReachFire(c, s, AppStep(0));
    s := Fire(c, s, AppStep(0));
    ReachFire(c, s, DecPick(0));
    s := Fire(c, s, DecPick(0));
    ReachFire(c, s, DecStep);
    s := Fire(c, s, DecStep);
    ReachFire(c, s, DecStep);
    s := Fire(c, s, DecStep);
    ReachFire(c, s, DecStep);
    s := Fire(c, s, DecStep);
    ReachFire(c, s, AllocPop(0));
    s := Fire(c, s, AllocPop(0));
    assert !ActiveImpliesRW(s.pages[0]);
  }

  /** With at least one page, application thread and worker, the machine is safe exactly when
      decommit restores the protection. */
  lemma {:induction false} SafeIffRestored(c: Config)
    requires c.comps > 0 && c.apps > 0 && c.pages > 0
    ensures (forall s :: Reachable(c, s) ==> Safe(s)) <==> !c.buggy
  {
    if c.buggy {
      var s := BuggyReachesUnsafe(c);
    } else {
      forall s | Reachable(c, s) ensures Safe(s) {
        var schedule :| Run(c, schedule) == s;
        FixedIsSafe(c, schedule);
      }
    }
  }

  // -------------------------------------------------------------- what the steps of one process amount to

  /** Only page p changed. */
  predicate OthersSame(s: Sys, u: Sys, p: nat) {
    |u.pages| == |s.pages| && forall q :: 0 <= q < |s.pages| && q != p ==> u.pages[q] == s.pages[q]
  }

  lemma {:induction false} GoodAt(c: Config, schedule: seq<Action>, p: nat)
    requires !c.buggy && p < |Run(c, schedule).pages|
    ensures GoodPage(Run(c, schedule).pages[p])
  {
    RunKeeps(c, schedule);
    hide Run;
  }

  /** Lock and handle: a faulted page becomes readable and writable, with memory and without a blob. */
  lemma {:induction false} FaultRestores(c: Config, schedule: seq<Action>, t: nat, p: nat)
    requires !c.buggy
    requires var s := Run(c, schedule);
             && t < |s.apps| && p < |s.pages| && s.apps[t] == FaultLock(p) && s.pages[p].lock == Nobody
             && (s.pages[p].state == Compressed || s.pages[p].state == ActiveMonitoring
                 || s.pages[p].state == CompressedShadow)
    ensures var s := Run(c, schedule);
            var u := Fire(c, Fire(c, s, AppStep(t)), AppStep(t));
            && OthersSame(s, u, p) && |u.apps| == |s.apps| && u.apps[t] == AppLoop
            && u.pages[p] == Page(Active, ProtRW, Nobody, 0, true, false, true)
  {
    GoodAt(c, schedule, p);
    hide Run;
    var s := Run(c, schedule);
    var m := Fire(c, s, AppStep(t));
    assert m.apps[t] == FaultHandle(p) && m.pages == s.pages[p := s.pages[p].(lock := App(t))];
  }

  /** A page that is readable and writable is accessed without a fault. */
  lemma {:induction false} AccessAfterRestore(c: Config, s: Sys, t: nat, p: nat)
    requires t < |s.apps| && p < |s.pages| && s.apps[t] == AppLoop
    requires s.pages[p].state != Empty && s.pages[p].prot == ProtRW
    ensures var u := Fire(c, Fire(c, s, AppPick(t, p, false)), AppStep(t));
            OthersSame(s, u, p) && u.pages[p] == s.pages[p].(accessed := true) && u.apps[t] == AppLoop
  {
    var m := Fire(c, s, AppPick(t, p, false));
    assert m.apps[t] == AppAccess(p);
  }

  /** An access to a page that is not faults. */
  lemma {:induction false} AccessFaults(c: Config, s: Sys, t: nat, p: nat)
    requires t < |s.apps| && p < |s.pages| && s.apps[t] == AppLoop
    requires s.pages[p].state != Empty && s.pages[p].prot != ProtRW
    ensures var u := Fire(c, Fire(c, s, AppPick(t, p, false)), AppStep(t));
            u.pages == s.pages && u.apps[t] == FaultLock(p)
  {
    var m := Fire(c, s, AppPick(t, p, false));
    assert m.apps[t] == AppAccess(p);
  }

  /** Phase 2 on a cold page nobody holds, by outcome. */
  lemma {:induction false} WorkerCompresses(c: Config, schedule: seq<Action>, id: nat, p: nat, outcome: Outcome)
    requires !c.buggy
    requires var s := Run(c, schedule);
             && id < |s.comps| && p < |s.pages| && s.comps[id] == Phase2(p) && s.pages[p].lock == Nobody
             && (s.pages[p].state == Active || s.pages[p].state == ActiveMonitoring)
             && s.pages[p].cold > c.coldThreshold
    ensures var s := Run(c, schedule); var go := CompStep(id, outcome);
            var u := Fire(c, Fire(c, Fire(c, Fire(c, s, go), go), go), go);
            && OthersSame(s, u, p) && |u.comps| == |s.comps| && u.comps[id] == Phase2(p + 1)
            && u.pages[p].lock == Nobody
            && match outcome
               case Reclaim =>
                 && u.pages[p].state == Compressed && u.pages[p].prot == ProtNone
                 && u.pages[p].hasBlob && !u.pages[p].hasPhysical
               case Defer =>
                 && u.pages[p].state == CompressedShadow && u.pages[p].prot == ProtRW
                 && u.pages[p].hasBlob && u.pages[p].hasPhysical
               case RatioFail =>
                 && u.pages[p].state == Active && u.pages[p].prot == ProtRW && u.pages[p].cold == 0
                 && !u.pages[p].hasBlob && u.pages[p].hasPhysical
  {
    GoodAt(c, schedule, p);
    hide Run;
    var s := Run(c, schedule);
    var go := CompStep(id, outcome);
    var g := s.pages[p];
    var s1 := Fire(c, s, go);
    assert s1 == s.(comps := s.comps[id := P2Lock(p)], pages := s.pages[p := g]);
    var s2 := Fire(c, s1, go);
    assert s2.comps[id] == P2Compress(p) && s2.pages[p] == g.(lock := Comp(id), state := Compressing);
    var s3 := Fire(c, s2, go);
    assert s3.comps[id] == P2Finish(p) && s3.pages[p] == g.(lock := Comp(id), state := Compressing, prot := ProtRead);
  }

  /** Phase 1 on a page: an access since the last pass resets its count, otherwise it grows up to its limit. */
  lemma {:induction false} WorkerTicks(c: Config, s: Sys, id: nat, p: nat, outcome: Outcome)
    requires id < |s.comps| && p < |s.pages| && s.comps[id] == Phase1(p)
    ensures var u := Fire(c, s, CompStep(id, outcome)); var g := s.pages[p];
            && OthersSame(s, u, p) && u.comps[id] == Phase1(p + 1)
            && (g.state == Empty ==> u.pages[p] == g)
            && (g.state != Empty && g.accessed ==> u.pages[p] == g.(cold := 0, accessed := false))
            && (g.state != Empty && !g.accessed && g.cold <= c.coldThreshold ==>
                  u.pages[p] == g.(cold := g.cold + 1))
  {
  }

  function TickMany(c: Config, g: Page, k: nat): Page {
    if k == 0 then g else Tick(c, TickMany(c, g, k - 1))
  }

  /** A page left alone is cold after coldThreshold + 1 passes, and not before. */
  lemma {:induction false} ColdWhenLeftAlone(c: Config, g: Page, k: nat)
    requires g.state != Empty && !g.accessed && g.cold == 0
    ensures var h := TickMany(c, g, k);
            h.state == g.state && !h.accessed && (h.cold > c.coldThreshold <==> k > c.coldThreshold)
            && (k <= c.coldThreshold + 1 ==> h.cold == k) && h.cold <= c.coldThreshold + 1
  {
    if k > 0 {
      ColdWhenLeftAlone(c, g, k - 1);
    }
  }

  /** Phase 3 puts an active page under read-only monitoring. */
  lemma {:induction false} WorkerMonitors(c: Config, s: Sys, id: nat, p: nat, outcome: Outcome)
    requires id < |s.comps| && p < |s.pages| && s.comps[id] == Phase3(p) && s.pages[p].state == Active
    ensures var go := CompStep(id, outcome); var u := Fire(c, Fire(c, Fire(c, s, go), go), go);
            && OthersSame(s, u, p) && u.comps[id] == Phase3(p + 1)
            && u.pages[p] == s.pages[p].(state := ActiveMonitoring, prot := ProtRead)
  {
    var go := CompStep(id, outcome);
    var s1 := Fire(c, s, go);
    assert s1 == s.(comps := s.comps[id := P3CAS(p)], pages := s.pages[p := s.pages[p]]);
    var s2 := Fire(c, s1, go);
    assert s2.comps[id] == P3Prot(p) && s2.pages[p] == s.pages[p].(state := ActiveMonitoring);
  }

  /** Phase B gives up the memory of a shadow nobody touched, and the blob of one that was. */
  lemma {:induction false} WorkerReclaims(c: Config, s: Sys, id: nat, p: nat, outcome: Outcome)
    requires id < |s.comps| && p < |s.pages| && s.comps[id] == PhaseB(p)
    requires s.pages[p].state == CompressedShadow && s.pages[p].lock == Nobody
    ensures var go := CompStep(id, outcome); var g := s.pages[p];
            var v := Fire(c, Fire(c, Fire(c, Fire(c, s, go), go), go), go); var u := Fire(c, v, go);
            && OthersSame(s, v, p)
            && (g.accessed ==>
                  v.comps[id] == PhaseB(p + 1)
                  && v.pages[p] == g.(state := Active, prot := ProtRW, hasBlob := false, cold := 0, accessed := false))
            && (!g.accessed ==>
                  OthersSame(s, u, p) && u.comps[id] == PhaseB(p + 1)
                  && u.pages[p] == g.(state := Compressed, prot := ProtNone, hasPhysical := false))
  {
    var go := CompStep(id, outcome);
    var g := s.pages[p];
    var s1 := Fire(c, s, go);
    assert s1 == s.(comps := s.comps[id := PBLock(p)], pages := s.pages[p := g]);
    var s2 := Fire(c, s1, go);
    assert s2.comps[id] == PBProtRead(p) && s2.pages[p] == g.(lock := Comp(id));
    var s3 := Fire(c, s2, go);
    assert s3.comps[id] == PBVerify(p) && s3.pages[p] == g.(lock := Comp(id), prot := ProtRead);
  }

  /** free() empties any page in use that nobody holds, and queues it once. */
  lemma {:induction false} FreeQueues(c: Config, s: Sys, t: nat, p: nat)
    requires t < |s.apps| && p < |s.pages| && s.apps[t] == AppLoop
    requires s.pages[p].state != Empty && s.pages[p].lock == Nobody && p !in s.freeList && p !in s.decommitQ
    ensures var u := Fire(c, Fire(c, s, AppPick(t, p, true)), AppStep(t)); var g := s.pages[p];
            && OthersSame(s, u, p) && u.apps[t] == AppLoop && u.decommitQ == s.decommitQ + {p}
            && u.pages[p] == Page(Empty, g.prot, Nobody, 0, false, false, false)
  {
    var m := Fire(c, s, AppPick(t, p, true));
    assert m.apps[t] == AppFree(p);
  }

  /** The decommit thread moves a queued page to the free list, readable and writable when it restores. */
  lemma {:induction false} DecommitFrees(c: Config, s: Sys, p: nat)
    requires s.dec == DecIdle && p in s.decommitQ && p < |s.pages|
    ensures var u := Fire(c, Fire(c, Fire(c, Fire(c, s, DecPick(p)), DecStep), DecStep), DecStep);
            && OthersSame(s, u, p) && u.dec == DecIdle
            && u.decommitQ == s.decommitQ - {p} && u.freeList == s.freeList + {p}
            && u.pages[p] == if c.buggy then s.pages[p] else s.pages[p].(prot := ProtRW)
  {
  }

  /** The allocator takes a page off the free list and puts it to use. */
  lemma {:induction false} PopActivates(c: Config, s: Sys, p: nat)
    requires p in s.freeList && p < |s.pages| && s.pages[p].state == Empty
    ensures var u := Fire(c, s, AllocPop(p));
            && OthersSame(s, u, p) && u.freeList == s.freeList - {p}
            && u.pages[p] == s.pages[p].(state := Active, hasPhysical := true)
  {
  }
}
