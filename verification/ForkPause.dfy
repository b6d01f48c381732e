/** The compressor's fork-pause handshake (model/SmashForkPause.tla): the coordinator
    publishes inTick and checks paused, the fork-prepare handler sets paused and waits for
    inTick to clear.  Sequentially consistent steps; the wait is not capped. */
module ForkPause {

  datatype CoordPc = Idle | BCheck | BSet | FSet | FCheck | Body | Clear
  datatype PreparePc = PIdle | PWait | PFork | PDone

  datatype State = State(paused: bool, inTick: bool, forked: bool, coord: CoordPc, prepare: PreparePc)

  /** Which of the two processes moves. */
  datatype Action = Coord | Prepare

  const START := State(false, false, false, Idle, PIdle)

  /** `checkThenSet` is the order that looks at paused before publishing inTick. */
  function CoordMove(s: State, checkThenSet: bool): State {
    match s.coord
    case Idle => s.(coord := if checkThenSet then BCheck else FSet)
    case BCheck => s.(coord := if s.paused then Idle else BSet)
    case BSet => s.(inTick := true, coord := Body)
    case FSet => s.(inTick := true, coord := FCheck)
    case FCheck => if s.paused then s.(inTick := false, coord := Idle) else s.(coord := Body)
    case Body => s.(coord := Clear)
    case Clear => s.(inTick := false, coord := Idle)
  }

  function PrepareMove(s: State): State {
    match s.prepare
    case PIdle => s.(paused := true, prepare := PWait)
    case PWait => if s.inTick then s else s.(prepare := PFork)
    case PFork => s.(forked := true, prepare := PDone)
    case PDone => s
  }

  function Fire(s: State, a: Action, checkThenSet: bool): State {
    match a
    case Coord => CoordMove(s, checkThenSet)
    case Prepare => PrepareMove(s)
  }

  function Run(schedule: seq<Action>, checkThenSet: bool): State {
    if schedule == [] then START
    else Fire(Run(schedule[..|schedule| - 1], checkThenSet), schedule[|schedule| - 1], checkThenSet)
  }

  predicate ForkDuringTick(s: State) { s.forked && s.coord == Body }

  /** A run that never has the fork and the tick body together at its end. */
  predicate SafeRun(schedule: seq<Action>, checkThenSet: bool) {
    !ForkDuringTick(Run(schedule, checkThenSet))
  }

  /** inTick covers the tick, and once the wait is over the coordinator can no longer enter one. */
  predicate Inv(s: State) {
    && !s.coord.BCheck? && !s.coord.BSet?
    && (s.coord.FCheck? || s.coord.Body? || s.coord.Clear? <==> s.inTick)
    && (!s.prepare.PIdle? ==> s.paused)
    && (s.prepare.PFork? || s.prepare.PDone? ==> !s.coord.Body? && !s.coord.Clear?)
    && (s.forked ==> s.prepare.PDone?)
  }

  lemma {:induction false} RunKeeps(schedule: seq<Action>)
    ensures Inv(Run(schedule, false))
  {
    if schedule != [] {
      RunKeeps(schedule[..|schedule| - 1]);
    }
  }

  /** The check-then-set order: the fork fires between the check and the publication. */
  lemma {:induction false} CheckThenSetForks()
    ensures !SafeRun([Coord, Coord, Prepare, Prepare, Prepare, Coord], true)
  {
    var s := [Coord, Coord, Prepare, Prepare, Prepare, Coord];
    assert s[..5] == [Coord, Coord, Prepare, Prepare, Prepare];
    assert s[..5][..4] == [Coord, Coord, Prepare, Prepare];
    assert s[..5][..4][..3] == [Coord, Coord, Prepare];
    assert s[..5][..4][..3][..2] == [Coord, Coord];
    assert s[..5][..4][..3][..2][..1] == [Coord];
    assert Run([Coord], true) == Fire(START, Coord, true);
    assert Run([Coord, Coord], true) == START.(coord := BSet);
    assert Run([Coord, Coord, Prepare], true) == State(true, false, false, BSet, PWait);
    assert Run(s[..5], true) == State(true, false, true, BSet, PDone);
  }

  /** fork() never fires inside a tick, in any run, exactly for the publish-then-check order. */
  lemma {:induction false} NoForkIffPublishedFirst(checkThenSet: bool)
    ensures (forall schedule :: SafeRun(schedule, checkThenSet)) <==> !checkThenSet
  {
    if checkThenSet {
      CheckThenSetForks();
    } else {
      forall schedule ensures SafeRun(schedule, false) {
        RunKeeps(schedule);
      }
    }
  }

  // -------------------------------------------------------------- each side left alone

  function Moves(s: State, a: Action, n: nat, checkThenSet: bool): State {
    if n == 0 then s else Fire(Moves(s, a, n - 1, checkThenSet), a, checkThenSet)
  }

  lemma {:induction false} FiveMoves(s: State, a: Action, order: bool)
    ensures Moves(s, a, 3, order) == Fire(Fire(Fire(s, a, order), a, order), a, order)
    ensures Moves(s, a, 5, order) == Fire(Fire(Moves(s, a, 3, order), a, order), a, order)
  {
    hide Fire;
    assert Moves(s, a, 1, order) == Fire(s, a, order);
    assert Moves(s, a, 4, order) == Fire(Moves(s, a, 3, order), a, order);
  }

  /** Not paused, the coordinator enters its tick with inTick published and clears it behind, in either order;
      paused, it never enters and leaves inTick clear. */
  lemma {:induction false} CoordinatorTicks(s: State, checkThenSet: bool)
    requires s.coord.Idle? && !s.inTick
    ensures !s.paused ==>
              && Moves(s, Coord, 3, checkThenSet) == s.(inTick := true, coord := Body)
              && Moves(s, Coord, 5, checkThenSet) == s
    ensures s.paused ==>
              && (forall n :: 0 <= n <= 3 ==> Moves(s, Coord, n, checkThenSet).coord != Body)
              && (if checkThenSet then Moves(s, Coord, 2, checkThenSet) else Moves(s, Coord, 3, checkThenSet)) == s
  {
    FiveMoves(s, Coord, checkThenSet);
    assert Moves(s, Coord, 1, checkThenSet) == Fire(s, Coord, checkThenSet);
    assert Moves(s, Coord, 2, checkThenSet) == Fire(Moves(s, Coord, 1, checkThenSet), Coord, checkThenSet);
  }

  /** The handler pauses the coordinator, waits exactly while inTick is set, and forks. */
  lemma {:induction false} HandlerForks(s: State, n: nat, checkThenSet: bool)
    requires s.prepare.PIdle?
    ensures !s.inTick ==> Moves(s, Prepare, 3, checkThenSet) == s.(paused := true, forked := true, prepare := PDone)
    ensures s.inTick && n > 0 ==> Moves(s, Prepare, n, checkThenSet) == s.(paused := true, prepare := PWait)
  {
    if s.inTick && n > 1 {
      HandlerForks(s, n - 1, checkThenSet);
    } else {
      FiveMoves(s, Prepare, checkThenSet);
      assert Moves(s, Prepare, 1, checkThenSet) == Fire(s, Prepare, checkThenSet);
    }
  }
}
