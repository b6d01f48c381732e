/** Decompress-on-fault restore against lock-free readers (model/SmashRestoreRace.tla), for
    any number of pages, compressor workers and fault handlers, and any page contents.
    Dropping a page's backing leaves zeros; a load of a readable page returns the backing. */
module RestoreRace {

  import opened Basics

  datatype Prot = RW | NoAccess
  datatype Holder = Nobody | Comp(comp: nat) | Fault(handler: nat)

  /** Atomic: one step.  Split: mprotect then memcpy.  Procmem: write while inaccessible, then mprotect. */
  datatype Variant = Atomic | Split | Procmem

  /** `val` is the logical content, `backing` what a load returns; `stale` records a wrong load. */
  datatype Page = Page(val: int, backing: int, prot: Prot, compressed: bool, snapshot: Option<int>,
                       lock: Holder, stale: bool)

  datatype FaultPc = FIdle | FAtomic(p: nat) | FProtect(p: nat) | FCopy(p: nat)
                   | FWrite(p: nat) | FExpose(p: nat) | FUnlock(p: nat)
  datatype CompPc = CLoop | CUnlock(p: nat)

  datatype Sys = Sys(pages: seq<Page>, comps: seq<CompPc>, faults: seq<FaultPc>)

  datatype Action =
    | CompPick(comp: nat, page: nat)
    | CompRelease(comp: nat)
    | FaultPick(handler: nat, page: nat)
    | FaultStep(handler: nat)
    | Load(page: nat)

  datatype Config = Config(vals: seq<int>, comps: nat, faults: nat, variant: Variant)

  function Init(c: Config): Sys {
    Sys(seq(|c.vals|, p requires 0 <= p < |c.vals| => Page(c.vals[p], c.vals[p], RW, false, None, Nobody, false)),
        seq(c.comps, _ => CLoop), seq(c.faults, _ => FIdle))
  }

  /** Snapshot, protect, drop the backing, under the page lock. */
  function Squeeze(g: Page, id: nat): Page {
    g.(lock := Comp(id), snapshot := Some(g.val), compressed := true, prot := NoAccess, backing := 0)
  }

  function First(v: Variant, p: nat): FaultPc {
    match v
    case Atomic => FAtomic(p)
    case Split => FProtect(p)
    case Procmem => FWrite(p)
  }

  /** One restore step on the page: the new label and the new page. */
  function FaultOn(pc: FaultPc, g: Page): (FaultPc, Page) {
    var content := if g.snapshot.Some? then g.snapshot.value else g.val;
    match pc
    case FIdle => (pc, g)
    case FAtomic(p) =>
      (FUnlock(p), g.(prot := RW, backing := content, val := content, compressed := false, snapshot := None))
    case FProtect(p) => (FCopy(p), g.(prot := RW))
    case FCopy(p) => (FUnlock(p), g.(backing := content, val := content, compressed := false, snapshot := None))
    case FWrite(p) => (FExpose(p), g.(backing := content, val := content))
    case FExpose(p) => (FUnlock(p), g.(prot := RW, compressed := false, snapshot := None))
    case FUnlock(p) => (FIdle, g.(lock := Nobody))
  }

  function Observe(g: Page): Page {
    g.(stale := g.stale || (g.prot == RW && g.backing != g.val))
  }

  function Fire(c: Config, s: Sys, a: Action): Sys {
    match a
    case CompPick(id, p) =>
      if id < |s.comps| && s.comps[id] == CLoop && p < |s.pages| && !s.pages[p].compressed && s.pages[p].lock == Nobody
      then s.(pages := s.pages[p := Squeeze(s.pages[p], id)], comps := s.comps[id := CUnlock(p)]) else s
    case CompRelease(id) =>
      if id < |s.comps| && s.comps[id].CUnlock? && s.comps[id].p < |s.pages|
      then s.(pages := s.pages[s.comps[id].p := s.pages[s.comps[id].p].(lock := Nobody)], comps := s.comps[id := CLoop])
      else s
    case FaultPick(f, p) =>
      if f < |s.faults| && s.faults[f] == FIdle && p < |s.pages| && s.pages[p].compressed && s.pages[p].lock == Nobody
      then s.(pages := s.pages[p := s.pages[p].(lock := Fault(f))], faults := s.faults[f := First(c.variant, p)]) else s
    case FaultStep(f) =>
      if f < |s.faults| && !s.faults[f].FIdle? && s.faults[f].p < |s.pages| then
        var p := s.faults[f].p;
        var (next, g) := FaultOn(s.faults[f], s.pages[p]);
        s.(pages := s.pages[p := g], faults := s.faults[f := next])
      else s
    case Load(p) =>
      if p < |s.pages| then s.(pages := s.pages[p := Observe(s.pages[p])]) else s
  }

  function Run(c: Config, schedule: seq<Action>): Sys {
    if schedule == [] then Init(c)
    else Fire(c, Run(c, schedule[..|schedule| - 1]), schedule[|schedule| - 1])
  }

  predicate NoStaleRead(s: Sys) {
    forall p :: 0 <= p < |s.pages| ==> !s.pages[p].stale
  }

  // -------------------------------------------------------------- invariant

  predicate Coherent(v: Variant, g: Page) {
    && !g.stale
    && (g.compressed ==> g.snapshot == Some(g.val))
    && (g.compressed && !v.Split? ==> g.prot == NoAccess)
    && (if v.Split? then g.val == 0 && g.backing == 0 else !g.compressed ==> g.backing == g.val)
  }

  /** A handler past FIdle holds the lock of its page, which stays compressed until the restore is complete. */
  predicate Restoring(v: Variant, pc: FaultPc, g: Page) {
    match pc
    case FIdle => true
    case FAtomic(p) => g.compressed && v.Atomic?
    case FProtect(p) => g.compressed && v.Split?
    case FCopy(p) => g.compressed && v.Split?
    case FWrite(p) => g.compressed && v.Procmem?
    case FExpose(p) => g.compressed && v.Procmem? && g.backing == g.val
    case FUnlock(p) => true
  }

  ghost predicate Inv(c: Config, s: Sys) {
    && (forall p :: 0 <= p < |s.pages| ==> Coherent(c.variant, s.pages[p]))
    && (forall f :: 0 <= f < |s.faults| && !s.faults[f].FIdle? ==>
          && s.faults[f].p < |s.pages| && s.pages[s.faults[f].p].lock == Fault(f)
          && Restoring(c.variant, s.faults[f], s.pages[s.faults[f].p]))
    && (forall id :: 0 <= id < |s.comps| && s.comps[id].CUnlock? ==>
          s.comps[id].p < |s.pages| && s.pages[s.comps[id].p].lock == Comp(id))
  }

  lemma {:induction false} FaultStepKeeps(c: Config, s: Sys, f: nat)
    requires Inv(c, s)
    ensures Inv(c, Fire(c, s, FaultStep(f)))
  {
    if f < |s.faults| && !s.faults[f].FIdle? {
      var p := s.faults[f].p;
      var (next, g) := FaultOn(s.faults[f], s.pages[p]);
      assert Coherent(c.variant, g) && Restoring(c.variant, next, g);
      assert next == FIdle || (next.p == p && g.lock == Fault(f));
    }
  }

  lemma {:induction false} CompPickKeeps(c: Config, s: Sys, id: nat, p: nat)
    requires Inv(c, s)
    ensures Inv(c, Fire(c, s, CompPick(id, p)))
  {
  }

  lemma {:induction false} FaultPickKeeps(c: Config, s: Sys, f: nat, p: nat)
    requires Inv(c, s)
    ensures Inv(c, Fire(c, s, FaultPick(f, p)))
  {
  }

  lemma {:induction false} FireKeeps(c: Config, s: Sys, a: Action)
    requires Inv(c, s)
    ensures Inv(c, Fire(c, s, a))
  {
    match a
    case CompPick(id, p) => CompPickKeeps(c, s, id, p);
    case CompRelease(id) =>
    case FaultPick(f, p) => FaultPickKeeps(c, s, f, p);
    case FaultStep(f) => FaultStepKeeps(c, s, f);
    case Load(p) =>
  }

  lemma {:induction false} RunKeeps(c: Config, schedule: seq<Action>)
    requires c.variant.Split? ==> forall p :: 0 <= p < |c.vals| ==> c.vals[p] == 0
    ensures Inv(c, Run(c, schedule))
  {
    if schedule != [] {
      RunKeeps(c, schedule[..|schedule| - 1]);
      FireKeeps(c, Run(c, schedule[..|schedule| - 1]), schedule[|schedule| - 1]);
    }
  }

  lemma {:induction false} Extend(c: Config, schedule: seq<Action>, a: Action) returns (longer: seq<Action>)
    ensures longer == schedule + [a] && Run(c, longer) == Fire(c, Run(c, schedule), a)
  {
    longer := schedule + [a];
    assert longer[..|schedule|] == schedule;
  }

  /** A load between the mprotect and the memcpy sees the dropped backing. */
  lemma {:induction false} SplitReadsStale(c: Config, p: nat) returns (schedule: seq<Action>)
    requires c.variant.Split? && c.comps > 0 && c.faults > 0 && p < |c.vals| && c.vals[p] != 0
    ensures !NoStaleRead(Run(c, schedule))
  {
    assert Run(c, []) == Init(c);
    hide Run;
    schedule := Extend(c, [], CompPick(0, p));
    schedule := Extend(c, schedule, CompRelease(0));
    schedule := Extend(c, schedule, FaultPick(0, p));
    schedule := Extend(c, schedule, FaultStep(0));
    schedule := Extend(c, schedule, Load(p));
    assert Run(c, schedule).pages[p].stale;
  }

  /** With a worker and a handler, no run reads stale content exactly when the restore is not
      split, or every page holds zeros (what the dropped backing reads as anyway). */
  lemma {:induction false} NoStaleReadIff(c: Config)
    requires c.comps > 0 && c.faults > 0
    ensures (forall schedule :: NoStaleRead(Run(c, schedule)))
            <==> (!c.variant.Split? || forall p :: 0 <= p < |c.vals| ==> c.vals[p] == 0)
  {
    if c.variant.Split? && exists p :: 0 <= p < |c.vals| && c.vals[p] != 0 {
      var p :| 0 <= p < |c.vals| && c.vals[p] != 0;
      var schedule := SplitReadsStale(c, p);
    } else {
      forall schedule ensures NoStaleRead(Run(c, schedule)) {
        RunKeeps(c, schedule);
      }
    }
  }

  // -------------------------------------------------------------- no content is lost, in any variant

  /** The content never changes; an unlocked page is readable and holds it, or is compressed and keeps a copy. */
  predicate Lossless(val: int, g: Page) {
    && g.val == val && (g.compressed ==> g.snapshot == Some(val))
    && (!g.compressed ==> g.prot == RW && g.backing == val && g.snapshot == None)
  }

  predicate RestoringAny(v: Variant, pc: FaultPc, g: Page) {
    match pc
    case FIdle => true
    case FAtomic(p) => g.compressed && v.Atomic?
    case FProtect(p) => g.compressed && v.Split?
    case FCopy(p) => g.compressed && v.Split? && g.prot == RW
    case FWrite(p) => g.compressed && v.Procmem?
    case FExpose(p) => g.compressed && v.Procmem? && g.backing == g.val
    case FUnlock(p) => !g.compressed
  }

  ghost predicate Sound(c: Config, s: Sys) {
    && |s.pages| == |c.vals|
    && (forall p :: 0 <= p < |s.pages| ==> Lossless(c.vals[p], s.pages[p]))
    && (forall f :: 0 <= f < |s.faults| && !s.faults[f].FIdle? ==>
          && s.faults[f].p < |s.pages| && s.pages[s.faults[f].p].lock == Fault(f)
          && RestoringAny(c.variant, s.faults[f], s.pages[s.faults[f].p]))
    && (forall id :: 0 <= id < |s.comps| && s.comps[id].CUnlock? ==>
          s.comps[id].p < |s.pages| && s.pages[s.comps[id].p].lock == Comp(id))
  }

  lemma {:induction false} SoundFaultStep(c: Config, s: Sys, f: nat)
    requires Sound(c, s)
    ensures Sound(c, Fire(c, s, FaultStep(f)))
  {
    if f < |s.faults| && !s.faults[f].FIdle? {
      var p := s.faults[f].p;
      var (next, g) := FaultOn(s.faults[f], s.pages[p]);
      assert Lossless(c.vals[p], g) && RestoringAny(c.variant, next, g);
      assert next == FIdle || (next.p == p && g.lock == Fault(f));
    }
  }

  lemma {:induction false} SoundCompPick(c: Config, s: Sys, id: nat, p: nat)
    requires Sound(c, s)
    ensures Sound(c, Fire(c, s, CompPick(id, p)))
  {
  }

  lemma {:induction false} SoundFaultPick(c: Config, s: Sys, f: nat, p: nat)
    requires Sound(c, s)
    ensures Sound(c, Fire(c, s, FaultPick(f, p)))
  {
  }

  lemma {:induction false} RunIsSound(c: Config, schedule: seq<Action>)
    ensures Sound(c, Run(c, schedule))
  {
    if schedule != [] {
      var m := |schedule| - 1;
      RunIsSound(c, schedule[..m]);
      var s := Run(c, schedule[..m]);
      match schedule[m] {
        case CompPick(id, p) => SoundCompPick(c, s, id, p);
        case CompRelease(id) =>
        case FaultPick(f, p) => SoundFaultPick(c, s, f, p);
        case FaultStep(f) => SoundFaultStep(c, s, f);
        case Load(p) =>
      }
    }
  }

  function FireAll(c: Config, s: Sys, schedule: seq<Action>): Sys {
    if schedule == [] then s
    else Fire(c, FireAll(c, s, schedule[..|schedule| - 1]), schedule[|schedule| - 1])
  }

  lemma {:induction false} FireAllAdds(c: Config, s: Sys, schedule: seq<Action>, a: Action)
    ensures FireAll(c, s, schedule + [a]) == Fire(c, FireAll(c, s, schedule), a)
  {
    assert (schedule + [a])[..|schedule|] == schedule;
  }

  /** The steps of one handler: take the page, restore it in one step or two, unlock. */
  function Handling(v: Variant, f: nat, p: nat): seq<Action> {
    [FaultPick(f, p)] + [FaultStep(f)] + [FaultStep(f)] + if v.Atomic? then [] else [FaultStep(f)]
  }

  predicate OnlyPage(s: Sys, u: Sys, p: nat) {
    |u.pages| == |s.pages| && forall q :: 0 <= q < |s.pages| && q != p ==> u.pages[q] == s.pages[q]
  }

  lemma {:induction false} HandlingIs(c: Config, s: Sys, f: nat, p: nat)
    ensures var u := Fire(c, Fire(c, Fire(c, s, FaultPick(f, p)), FaultStep(f)), FaultStep(f));
            FireAll(c, s, Handling(c.variant, f, p)) == if c.variant.Atomic? then u else Fire(c, u, FaultStep(f))
  {
    hide Fire;
    assert FireAll(c, s, []) == s;
    FireAllAdds(c, s, [], FaultPick(f, p));
    assert [] + [FaultPick(f, p)] == [FaultPick(f, p)];
    FireAllAdds(c, s, [FaultPick(f, p)], FaultStep(f));
    var three := [FaultPick(f, p)] + [FaultStep(f)] + [FaultStep(f)];
    FireAllAdds(c, s, [FaultPick(f, p)] + [FaultStep(f)], FaultStep(f));
    if c.variant.Atomic? {
      assert Handling(c.variant, f, p) == three;
    } else {
      FireAllAdds(c, s, three, FaultStep(f));
    }
  }

  /** After any run, a handler that is left alone with a compressed, unlocked page makes it readable with its
      first content, unlocks it, and touches no other page. */
  lemma {:induction false} HandlerRestores(c: Config, schedule: seq<Action>, f: nat, p: nat)
    requires var s := Run(c, schedule);
             && f < |s.faults| && s.faults[f] == FIdle
             && p < |s.pages| && s.pages[p].compressed && s.pages[p].lock == Nobody
    ensures var s := Run(c, schedule); var u := FireAll(c, s, Handling(c.variant, f, p));
            && p < |c.vals| && OnlyPage(s, u, p) && u.faults == s.faults && u.comps == s.comps
            && u.pages[p] == Page(c.vals[p], c.vals[p], RW, false, None, Nobody, s.pages[p].stale)
  {
    RunIsSound(c, schedule);
    var s := Run(c, schedule);
    hide Run;
    HandlingIs(c, s, f, p);
    hide FireAll;
    assert Lossless(c.vals[p], s.pages[p]);
    var u1 := Fire(c, s, FaultPick(f, p));
    assert u1.pages[p] == s.pages[p].(lock := Fault(f)) && u1.faults[f] == First(c.variant, p);
    assert u1.faults[f := FIdle] == s.faults && s.faults[f := FIdle] == s.faults;
  }

  /** A worker that is left alone with an unlocked, uncompressed page keeps a copy of its first content, makes
      the page inaccessible and drops its backing. */
  lemma {:induction false} WorkerSqueezes(c: Config, schedule: seq<Action>, id: nat, p: nat)
    requires var s := Run(c, schedule);
             && id < |s.comps| && s.comps[id] == CLoop
             && p < |s.pages| && !s.pages[p].compressed && s.pages[p].lock == Nobody
    ensures var s := Run(c, schedule); var u := Fire(c, Fire(c, s, CompPick(id, p)), CompRelease(id));
            && p < |c.vals| && OnlyPage(s, u, p) && u.faults == s.faults && u.comps == s.comps
            && u.pages[p] == Page(c.vals[p], 0, NoAccess, true, Some(c.vals[p]), Nobody, s.pages[p].stale)
  {
    RunIsSound(c, schedule);
    var s := Run(c, schedule);
    hide Run;
    assert Lossless(c.vals[p], s.pages[p]);
    assert s.comps[id := CUnlock(p)][id := CLoop] == s.comps;
  }
}
