/** The single-producer / single-consumer ring of the Larson benchmark
    (bench/bench_alloc_speed.cpp), one atomic load or store per step.  Both threads work
    from local copies of head and tail that may be out of date.  `published`, `retired`,
    `freed` and `live` record what happened; no step reads them. */
module LarsonRing {

  const RING: nat := 4096

  /** A pointer returned by malloc; 0 is NULL. */
  type Block = nat

  datatype ProdPc = PStop | PLoadHead | PLoadTail(h: nat) | PAlloc(h: nat) | PPublish(h: nat) | PExit

  datatype ConsPc = CStop | CLoadTail | CLoadHead(t: nat) | CFree(t: nat) | CRetire(t: nat)
                  | DTail | DHead(t: nat) | DReload | DFree(t: nat) | DRetire(t: nat) | CExit

  datatype Sys = Sys(ring: seq<Block>, head: nat, tail: nat, stop: bool, prod: ProdPc, cons: ConsPc,
                     published: seq<Block>, retired: nat, freed: seq<Block>, live: set<Block>, badFree: bool)

  /** `Prod(b)`: the producer moves; when it is at its malloc, malloc returns b. */
  datatype Action = Stop | Prod(block: Block) | Cons

  function Init(): Sys {
    Sys(seq(RING, _ => 0), 0, 0, false, PStop, CStop, [], 0, [], {}, false)
  }

  predicate InRange(s: Sys) { |s.ring| == RING && s.head < RING && s.tail < RING }

  function ProdMove(s: Sys, b: Block): (u: Sys)
    requires InRange(s)
    ensures InRange(u)
  {
    match s.prod
    case PStop => s.(prod := if s.stop then PExit else PLoadHead)
    case PLoadHead => s.(prod := PLoadTail(s.head))
    case PLoadTail(h) => s.(prod := if (h + 1) % RING == s.tail then PStop else PAlloc(h))
    case PAlloc(h) =>
      // malloc never returns a block that is still allocated
      if b in s.live || h >= RING then s
      else s.(ring := s.ring[h := b], live := if b == 0 then s.live else s.live + {b}, prod := PPublish(h))
    case PPublish(h) =>
      if h >= RING then s
      else s.(head := (h + 1) % RING, published := s.published + [s.ring[h]], prod := PStop)
    case PExit => s
  }

  function Free(s: Sys, t: nat): Sys
    requires InRange(s) && t < RING
  {
    var b := s.ring[t];
    s.(freed := s.freed + [b], live := s.live - {b}, badFree := s.badFree || (b != 0 && b !in s.live))
  }

  function Retire(s: Sys, t: nat): Sys {
    s.(tail := (t + 1) % RING, retired := s.retired + 1)
  }

  function ConsMove(s: Sys): (u: Sys)
    requires InRange(s)
    ensures InRange(u)
  {
    match s.cons
    case CStop => s.(cons := if s.stop then DTail else CLoadTail)
    case CLoadTail => s.(cons := CLoadHead(s.tail))
    case CLoadHead(t) => s.(cons := if t == s.head then CStop else CFree(t))
    case CFree(t) => if t >= RING then s else Free(s, t).(cons := CRetire(t))
    case CRetire(t) => Retire(s, t).(cons := CStop)
    case DTail => s.(cons := DHead(s.tail))
    case DHead(t) => s.(cons := if t == s.head then CExit else DReload)
    case DReload => s.(cons := DFree(s.tail))
    case DFree(t) => if t >= RING then s else Free(s, t).(cons := DRetire(t))
    case DRetire(t) => Retire(s, t).(cons := DTail)
    case CExit => s
  }

  function Fire(s: Sys, a: Action): (u: Sys)
    requires InRange(s)
    ensures InRange(u)
  {
    match a
    case Stop => s.(stop := true)
    case Prod(b) => ProdMove(s, b)
    case Cons => ConsMove(s)
  }

  function Run(schedule: seq<Action>): (s: Sys)
    ensures InRange(s)
  {
    if schedule == [] then Init()
    else Fire(Run(schedule[..|schedule| - 1]), schedule[|schedule| - 1])
  }

  // -------------------------------------------------------------- invariant

  /** Blocks published and not yet retired. */
  function Pending(s: Sys): int { |s.published| - s.retired }

  predicate MidIteration(pc: ProdPc) { !pc.PStop? && !pc.PExit? }
  predicate Freeing(pc: ConsPc) { pc.CFree? || pc.DFree? || pc.DReload? }
  predicate Retiring(pc: ConsPc) { pc.CRetire? || pc.DRetire? }
  predicate Draining(pc: ConsPc) { pc.DTail? || pc.DHead? || pc.DReload? || pc.DFree? || pc.DRetire? || pc.CExit? }

  /** head and tail count publications and retirements modulo the ring size; one slot stays empty. */
  predicate Counted(s: Sys) {
    && InRange(s)
    && s.head == |s.published| % RING && s.tail == s.retired % RING
    && 0 <= Pending(s) <= RING - 1
  }

  predicate LocalsOk(s: Sys)
    requires Counted(s)
  {
    && (s.prod.PLoadTail? || s.prod.PAlloc? || s.prod.PPublish? ==> s.prod.h == s.head)
    && (s.prod.PAlloc? || s.prod.PPublish? ==> Pending(s) < RING - 1)
    && (s.cons.CLoadHead? || s.cons.CFree? || s.cons.CRetire? || s.cons.DHead? || s.cons.DFree? || s.cons.DRetire? ==>
          s.cons.t == s.tail)
    && (Freeing(s.cons) || Retiring(s.cons) ==> Pending(s) > 0)
    && (Draining(s.cons) ==> s.stop)
    && (s.prod.PExit? ==> s.stop)
  }

  /** The slots from tail to head hold exactly the pending blocks, in order. */
  predicate SlotsOk(s: Sys)
    requires Counted(s)
  {
    forall k :: s.retired <= k < |s.published| ==> s.ring[k % RING] == s.published[k]
  }

  /** Blocks are freed in the order published. */
  predicate FreedOk(s: Sys)
    requires Counted(s)
  {
    && |s.freed| == s.retired + (if Retiring(s.cons) then 1 else 0)
    && |s.freed| <= |s.published| && s.freed == s.published[..|s.freed|]
    && !s.badFree
  }

  /** What is published but not freed is allocated, and no block stands there twice. */
  predicate LiveOk(s: Sys)
    requires Counted(s) && FreedOk(s) && LocalsOk(s)
  {
    && (forall k :: |s.freed| <= k < |s.published| && s.published[k] != 0 ==> s.published[k] in s.live)
    && (forall j, k :: |s.freed| <= j < k < |s.published| && s.published[j] != 0 ==> s.published[j] != s.published[k])
    && (s.prod.PPublish? && s.ring[s.head] != 0 ==>
          && s.ring[s.head] in s.live
          && forall k :: |s.freed| <= k < |s.published| ==> s.published[k] != s.ring[s.head])
  }

  /** Once the consumer has left, what it can have missed is the iteration the producer was in. */
  predicate ShutdownOk(s: Sys) {
    s.cons.CExit? ==> Pending(s) + (if MidIteration(s.prod) then 1 else 0) <= 1
  }

  predicate Inv(s: Sys) {
    Counted(s) && LocalsOk(s) && SlotsOk(s) && FreedOk(s) && LiveOk(s) && ShutdownOk(s)
  }

  lemma {:induction false} ModStep(a: nat)
    ensures (a % RING + 1) % RING == (a + 1) % RING
  {
  }

  lemma {:induction false} ModSame(a: nat, b: nat)
    requires a <= b < a + RING && a % RING == b % RING
    ensures a == b
  {
  }

  /** Steps that only read shared state, or leave the loop. */
  lemma {:induction false} ProdLookKeeps(s: Sys, b: Block)
    requires Inv(s) && (s.prod.PStop? || s.prod.PLoadHead? || s.prod.PLoadTail?)
    ensures Inv(ProdMove(s, b))
  {
    if s.prod.PLoadTail? && Pending(s) == RING - 1 {
      ModStep(|s.published|);
      assert (|s.published| + 1) % RING == (s.retired + RING) % RING;
    }
  }

  /** The producer's store hits a slot outside tail..head. */
  lemma {:induction false} AllocKeeps(s: Sys, b: Block)
    requires Inv(s) && s.prod.PAlloc?
    ensures Inv(ProdMove(s, b))
  {
    var u := ProdMove(s, b);
    forall k | s.retired <= k < |s.published| ensures u.ring[k % RING] == u.published[k] {
      if k % RING == s.head {
        ModSame(k, |s.published|);
      }
    }
  }

  lemma {:induction false} PublishCounts(s: Sys, b: Block)
    requires Inv(s) && s.prod.PPublish?
    ensures Counted(ProdMove(s, b)) && SlotsOk(ProdMove(s, b))
  {
    ModStep(|s.published|);
    assert ProdMove(s, b).published[|s.published|] == s.ring[s.head];
  }

  lemma {:induction false} PublishKeeps(s: Sys, b: Block)
    requires Inv(s) && s.prod.PPublish?
    ensures Inv(ProdMove(s, b))
  {
    var u := ProdMove(s, b);
    PublishCounts(s, b);
    assert u.freed == u.published[..|s.freed|];
    assert LiveOk(u) by {
      assert u.published[|s.published|] == s.ring[s.head];
    }
  }

  lemma {:induction false} ProdKeeps(s: Sys, b: Block)
    requires Inv(s)
    ensures Inv(ProdMove(s, b))
  {
    match s.prod
    case PAlloc(h) => AllocKeeps(s, b);
    case PPublish(h) => PublishKeeps(s, b);
    case PExit =>
    case _ => ProdLookKeeps(s, b);
  }

  lemma {:induction false} FreeKeeps(s: Sys)
    requires Inv(s) && (s.cons.CFree? || s.cons.DFree?)
    ensures Inv(ConsMove(s))
  {
    var u := ConsMove(s);
    assert s.ring[s.retired % RING] == s.published[s.retired];
    assert s.published[..|s.freed| + 1] == s.published[..|s.freed|] + [s.published[|s.freed|]];
    assert FreedOk(u);
  }

  lemma {:induction false} RetireKeeps(s: Sys)
    requires Inv(s) && Retiring(s.cons)
    ensures Inv(ConsMove(s))
  {
    ModStep(s.retired);
  }

  /** A move of the consumer that changes nothing but where it stands. */
  lemma {:induction false} ConsOnlyMoves(s: Sys, pc: ConsPc)
    requires Inv(s) && !Retiring(s.cons) && !Retiring(pc)
    requires LocalsOk(s.(cons := pc)) && ShutdownOk(s.(cons := pc))
    ensures Inv(s.(cons := pc))
  {
  }

  lemma {:induction false} ConsLookKeeps(s: Sys)
    requires Inv(s) && !s.cons.CFree? && !s.cons.DFree? && !Retiring(s.cons)
    ensures Inv(ConsMove(s))
  {
    if Pending(s) > 0 && s.head == s.tail {
      ModSame(s.retired, |s.published|);
    }
    hide SlotsOk, FreedOk, LiveOk;
    ConsOnlyMoves(s, ConsMove(s).cons);
  }

  lemma {:induction false} ConsKeeps(s: Sys)
    requires Inv(s)
    ensures Inv(ConsMove(s))
  {
    if s.cons.CFree? || s.cons.DFree? {
      FreeKeeps(s);
    } else if Retiring(s.cons) {
      RetireKeeps(s);
    } else {
      ConsLookKeeps(s);
    }
  }

  lemma {:induction false} RunKeeps(schedule: seq<Action>)
    ensures Inv(Run(schedule))
  {
    if schedule != [] {
      var m := |schedule| - 1;
      RunKeeps(schedule[..m]);
      match schedule[m]
      case Stop =>
      case Prod(b) => ProdKeeps(Run(schedule[..m]), b);
      case Cons => ConsKeeps(Run(schedule[..m]));
    }
  }

  // -------------------------------------------------------------- main results

  /** The queue the ring stands for. */
  function Queue(s: Sys): seq<Block>
    requires s.retired <= |s.published|
  {
    s.published[s.retired..]
  }

  lemma {:induction false} ModAdd(a: nat, k: nat)
    requires k < RING
    ensures (a % RING + k) % RING == (a + k) % RING
  {
  }

  lemma {:induction false} SlotAt(s: Sys, k: nat)
    requires Counted(s) && SlotsOk(s) && k < |Queue(s)|
    ensures s.ring[(s.tail + k) % RING] == Queue(s)[k]
  {
    ModAdd(s.retired, k);
    assert s.ring[(s.retired + k) % RING] == s.published[s.retired + k];
  }

  /** In every run: the slots from tail to head are the queue, at most 4095 of them; frees hit
      allocated blocks only, once each, in the order they were produced. */
  lemma {:induction false} RunIsSafe(schedule: seq<Action>)
    ensures var s := Run(schedule);
            && s.retired <= |s.published| && |Queue(s)| <= RING - 1
            && (forall k :: 0 <= k < |Queue(s)| ==> s.ring[(s.tail + k) % RING] == Queue(s)[k])
            && |s.freed| <= |s.published| && s.freed == s.published[..|s.freed|]
            && !s.badFree
  {
    RunKeeps(schedule);
    var s := Run(schedule);
    hide Run, SlotsOk, LiveOk;
    forall k | 0 <= k < |Queue(s)| ensures s.ring[(s.tail + k) % RING] == Queue(s)[k] {
      SlotAt(s, k);
    }
  }

  /** Every step is an enqueue at the producer's head store, a dequeue at the consumer's tail store,
      or invisible. */
  predicate QueueStep(s: Sys, a: Action)
    requires Inv(s)
  {
    var u := Fire(s, a);
    && u.retired <= |u.published|
    && if a.Prod? && s.prod.PPublish? then Queue(u) == Queue(s) + [s.ring[s.head]]
       else if a.Cons? && Retiring(s.cons) then
         Queue(s) != [] && Queue(u) == Queue(s)[1..] && s.freed != [] && s.freed[|s.freed| - 1] == Queue(s)[0]
       else Queue(u) == Queue(s)
  }

  lemma {:induction false} StepRefinesQueue(schedule: seq<Action>, a: Action)
    ensures Inv(Run(schedule)) && QueueStep(Run(schedule), a)
  {
    RunKeeps(schedule);
    var s := Run(schedule);
    hide Run, SlotsOk, LiveOk;
  }

  /** After a shutdown at most one published block was not freed. */
  lemma {:induction false} ShutdownLeavesAtMostOne(schedule: seq<Action>)
    ensures var s := Run(schedule);
            s.prod.PExit? && s.cons.CExit? ==> |s.published| - |s.freed| <= 1
  {
    RunKeeps(schedule);
  }

  /** Appends `a` to a schedule whose end state is known. */
  lemma {:induction false} Extend(schedule: seq<Action>, a: Action) returns (longer: seq<Action>)
    ensures longer == schedule + [a] && Run(longer) == Fire(Run(schedule), a)
  {
    longer := schedule + [a];
    assert longer[..|schedule|] == schedule;
  }

  /** The bound is met: the producer publishes the block it was about to allocate after the consumer left. */
  lemma {:induction false} OneBlockCanRemain() returns (schedule: seq<Action>)
    ensures var s := Run(schedule);
            s.prod.PExit? && s.cons.CExit? && |s.published| - |s.freed| == 1
  {
    schedule := Extend([], Prod(0));
    schedule := Extend(schedule, Prod(0));
    schedule := Extend(schedule, Prod(0));
    schedule := Extend(schedule, Stop);
    schedule := Extend(schedule, Cons);
    schedule := Extend(schedule, Cons);
    schedule := Extend(schedule, Cons);
    assert Run(schedule) == Init().(stop := true, prod := PAlloc(0), cons := CExit);
    schedule := Extend(schedule, Prod(1));
    schedule := Extend(schedule, Prod(0));
    schedule := Extend(schedule, Prod(0));
  }

  // -------------------------------------------------------------- each thread left alone

  function Moves(s: Sys, a: Action, n: nat): (u: Sys)
    requires InRange(s)
    ensures InRange(u)
  {
    if n == 0 then s else Fire(Moves(s, a, n - 1), a)
  }

  lemma {:induction false} FiveMoves(s: Sys, a: Action)
    requires InRange(s)
    ensures Moves(s, a, 3) == Fire(Fire(Fire(s, a), a), a) && Moves(s, a, 5) == Fire(Fire(Moves(s, a, 3), a), a)
  {
    hide Fire;
    assert Moves(s, a, 1) == Fire(s, a);
    assert Moves(s, a, 4) == Fire(Moves(s, a, 3), a);
  }

  lemma {:induction false} FullIff(s: Sys)
    requires Counted(s)
    ensures (s.head + 1) % RING == s.tail <==> Pending(s) == RING - 1
    ensures s.head == s.tail <==> Pending(s) == 0
  {
    ModStep(|s.published|);
    if (s.head + 1) % RING == s.tail && Pending(s) < RING - 1 {
      ModSame(s.retired, |s.published| + 1);
    } else if Pending(s) == RING - 1 {
      assert (|s.published| + 1) % RING == (s.retired + RING) % RING;
    }
    if s.head == s.tail {
      ModSame(s.retired, |s.published|);
    }
  }

  lemma {:induction false} ProducerLooks(s: Sys, b: Block)
    requires Counted(s) && s.prod.PStop? && !s.stop
    ensures Moves(s, Prod(b), 3) == s.(prod := if Pending(s) == RING - 1 then PStop else PAlloc(s.head))
  {
    FullIff(s);
    FiveMoves(s, Prod(b));
    hide Moves, Counted;
  }

  lemma {:induction false} ProducerStores(s: Sys, b: Block)
    requires Counted(s) && s.prod == PAlloc(s.head) && b !in s.live
    ensures Fire(Fire(s, Prod(b)), Prod(b)) ==
            s.(ring := s.ring[s.head := b], head := (s.head + 1) % RING, published := s.published + [b],
               live := if b == 0 then s.live else s.live + {b}, prod := PStop)
  {
    var u := Fire(s, Prod(b));
    assert u.prod == PPublish(s.head) && u.ring[s.head] == b;
  }

  /** A round of the producer enqueues the block malloc gave it, or gives up when 4095 are pending. */
  lemma {:induction false} ProducerRound(s: Sys, b: Block)
    requires Inv(s) && s.prod.PStop? && !s.stop && b !in s.live
    ensures Pending(s) == RING - 1 ==> Moves(s, Prod(b), 3) == s
    ensures var u := Moves(s, Prod(b), 5);
            Pending(s) < RING - 1 ==>
              && u.retired <= |u.published| && Queue(u) == Queue(s) + [b] && u.ring == s.ring[s.head := b]
              && u.head == (s.head + 1) % RING && u.tail == s.tail && u.prod.PStop? && u.cons == s.cons
              && u.freed == s.freed && u.live == (if b == 0 then s.live else s.live + {b})
  {
    ProducerLooks(s, b);
    FiveMoves(s, Prod(b));
    hide LocalsOk, SlotsOk, FreedOk, LiveOk, ShutdownOk, Moves, Fire;
    if Pending(s) < RING - 1 {
      ProducerStores(Moves(s, Prod(b), 3), b);
      assert (s.published + [b])[s.retired..] == s.published[s.retired..] + [b];
    }
  }

  /** What a consumer leaves after freeing and retiring the front of the queue. */
  predicate Dequeued(s: Sys, u: Sys)
    requires Counted(s)
  {
    && s.retired < |s.published| && u.retired == s.retired + 1 && u.published == s.published
    && u.freed == s.freed + [s.published[s.retired]] && u.live == s.live - {s.published[s.retired]}
    && u.tail == (s.tail + 1) % RING && u.head == s.head && u.ring == s.ring && u.prod == s.prod && u.stop == s.stop
    && u.badFree == s.badFree
  }

  /** A round of the consumer frees and retires the front of the queue, or finds it empty. */
  lemma {:induction false} ConsumerRound(s: Sys)
    requires Inv(s) && s.cons.CStop? && !s.stop
    ensures Pending(s) == 0 ==> Moves(s, Cons, 3) == s
    ensures Pending(s) > 0 ==> Dequeued(s, Moves(s, Cons, 5)) && Moves(s, Cons, 5).cons.CStop?
  {
    FullIff(s);
    FiveMoves(s, Cons);
    if Pending(s) > 0 {
      SlotAt(s, 0);
      assert Moves(s, Cons, 3) == s.(cons := CFree(s.tail));
    } else {
      assert Moves(s, Cons, 3) == s;
    }
    hide SlotsOk, FreedOk, LiveOk, ShutdownOk, Moves;
  }

  /** So does a round of the drain, which ends on an empty queue. */
  lemma {:induction false} DrainRound(s: Sys)
    requires Inv(s) && s.cons.DTail?
    ensures Pending(s) == 0 ==> Fire(Fire(s, Cons), Cons) == s.(cons := CExit)
    ensures Pending(s) > 0 ==> Dequeued(s, Moves(s, Cons, 5)) && Moves(s, Cons, 5).cons.DTail?
  {
    FullIff(s);
    FiveMoves(s, Cons);
    if Pending(s) > 0 {
      SlotAt(s, 0);
    }
    hide SlotsOk, FreedOk, LiveOk, ShutdownOk;
  }

  lemma {:induction false} MovesKeep(s: Sys, n: nat)
    requires Inv(s)
    ensures Inv(Moves(s, Cons, n))
  {
    assert InRange(s);
    hide Inv, ConsMove;
    if n > 0 {
      MovesKeep(s, n - 1);
      ConsKeeps(Moves(s, Cons, n - 1));
    }
  }

  lemma {:induction false} MovesAdd(s: Sys, a: Action, m: nat, n: nat)
    requires InRange(s)
    ensures Moves(s, a, m + n) == Moves(Moves(s, a, m), a, n)
  {
    hide Fire;
    if n > 0 {
      MovesAdd(s, a, m, n - 1);
    }
  }

  lemma {:induction false} DrainEnds(s: Sys)
    requires Inv(s) && s.cons.DTail? && Pending(s) == 0
    ensures Moves(s, Cons, 2) == s.(cons := CExit) && s.freed == s.published && s.head == s.tail && !s.badFree
  {
    DrainRound(s);
    FullIff(s);
    assert Moves(s, Cons, 1) == Fire(s, Cons);
    assert s.published[..|s.freed|] == s.published;
    hide Fire, SlotsOk, LiveOk;
  }

  lemma {:induction false} InvCounts(s: Sys)
    requires Inv(s)
    ensures InRange(s) && Counted(s)
  {
  }

  lemma {:induction false} DequeuedCounts(s: Sys, u: Sys)
    requires Counted(s) && Dequeued(s, u)
    ensures Pending(u) == Pending(s) - 1 && u.published == s.published
  {
  }

  /** One more round of the drain, for the rounds to come. */
  lemma {:induction false} DrainGoesOn(s: Sys, n: nat)
    requires Inv(s) && s.cons.DTail? && Pending(s) == n + 1
    ensures InRange(s)
    ensures var u := Moves(s, Cons, 5);
            && Inv(u) && u.cons.DTail? && Pending(u) == n && u.published == s.published
            && Moves(s, Cons, 5 * (n + 1) + 2) == Moves(u, Cons, 5 * n + 2)
  {
    hide *;
    InvCounts(s);
    DrainRound(s);
    DequeuedCounts(s, Moves(s, Cons, 5));
    MovesKeep(s, 5);
    MovesAdd(s, Cons, 5, 5 * n + 2);
    assert 5 + (5 * n + 2) == 5 * (n + 1) + 2;
  }

  /** Left alone, the drain frees everything published, in order, and exits after five moves a block and two. */
  lemma {:induction false} DrainFreesAll(s: Sys, n: nat)
    requires Inv(s) && s.cons.DTail? && Pending(s) == n
    ensures InRange(s)
    ensures var u := Moves(s, Cons, 5 * n + 2);
            u.cons.CExit? && u.freed == s.published == u.published && u.head == u.tail && !u.badFree
    decreases n
  {
    hide *;
    InvCounts(s);
    if n > 0 {
      DrainGoesOn(s, n - 1);
      DrainFreesAll(Moves(s, Cons, 5), n - 1);
    } else {
      DrainEnds(s);
    }
  }
}
