/** The stores of `PageMap::set` on one page whose second-level table exists (src/core/page_map.h,
    src/vm/vm_region.h setSpan): the tree entry, then the flat entry and its tag, the tag after the
    entry on a set and before it on a clear.  Any number of writers, one atomic store per step.
    What a reader that loads the tag and then the flat entry gets is what holds of the state between
    its loads, so the two fit together when no store to the page comes in between. */
module TagOrder {
  import opened Basics
  import opened Spans

  datatype Pc = Idle | StoreTree(span: SpanPtr) | SetEntry(next: Span) | SetTag(next: Span) | ClearTag | ClearEntry

  /** `exclusive`: at most one writer is inside `set` for the page at a time.
      `cleared`: a span is set only while the flat entry is null. */
  datatype Config = Config(writers: nat, exclusive: bool, cleared: bool) {
    predicate Apart() { exclusive || writers < 2 }
  }

  datatype Sys = Sys(tree: SpanPtr, entry: SpanPtr, tag: bv16, writers: seq<Pc>)

  datatype Action = Call(writer: nat, span: SpanPtr) | Step(writer: nat)

  function Init(c: Config): Sys {
    Sys(None, None, 0, seq(c.writers, _ => Idle))
  }

  predicate Quiet(writers: seq<Pc>) {
    forall t :: 0 <= t < |writers| ==> writers[t] == Idle
  }

  function Move(s: Sys, t: nat): Sys
    requires t < |s.writers|
  {
    match s.writers[t]
    case Idle => s
    case StoreTree(span) =>
      s.(tree := span, writers := s.writers[t := if span.Some? then SetEntry(span.value) else ClearTag])
    case SetEntry(span) => s.(entry := Some(span), writers := s.writers[t := SetTag(span)])
    case SetTag(span) => s.(tag := PageTag(Some(span)), writers := s.writers[t := Idle])
    case ClearTag => s.(tag := 0, writers := s.writers[t := ClearEntry])
    case ClearEntry => s.(entry := None, writers := s.writers[t := Idle])
  }

  predicate MayCall(c: Config, s: Sys, span: SpanPtr) {
    (c.exclusive ==> Quiet(s.writers)) && (c.cleared && span.Some? ==> s.entry.None?)
  }

  function Fire(c: Config, s: Sys, a: Action): Sys {
    if a.writer >= |s.writers| then s
    else match a
      case Call(t, span) =>
        if s.writers[t] == Idle && MayCall(c, s, span) then s.(writers := s.writers[t := StoreTree(span)]) else s
      case Step(t) => Move(s, t)
  }

  function Run(c: Config, schedule: seq<Action>): Sys {
    if schedule == [] then Init(c)
    else Fire(c, Run(c, schedule[..|schedule| - 1]), schedule[|schedule| - 1])
  }

  // -------------------------------------------------------------- what readers rely on

  /** A nonzero tag names a page whose entry is there. */
  predicate Named(s: Sys) {
    s.tag != 0 ==> s.entry.Some?
  }

  /** A nonzero tag is the tag of the entry. */
  predicate Matches(s: Sys) {
    s.tag == 0 || s.tag == PageTag(s.entry)
  }

  /** With no write under way, tree, flat entry and tag agree. */
  predicate Agrees(s: Sys) {
    Quiet(s.writers) ==> s.tree == s.entry && s.tag == PageTag(s.entry)
  }

  predicate NamedRun(c: Config, schedule: seq<Action>) {
    Named(Run(c, schedule))
  }

  predicate MatchingRun(c: Config, schedule: seq<Action>) {
    Matches(Run(c, schedule))
  }

  predicate AgreeingRun(c: Config, schedule: seq<Action>) {
    Agrees(Run(c, schedule))
  }

  // -------------------------------------------------------------- invariant

  predicate InStep(s: Sys) { s.tag == PageTag(s.entry) }
  predicate Empty(s: Sys) { s.entry.None? && s.tag == 0 }

  /** How far the stores of a writer at label pc have come. */
  predicate Progress(c: Config, s: Sys, pc: Pc) {
    match pc
    case Idle => true
    case StoreTree(span) => InStep(s) && s.tree == s.entry && (c.cleared && span.Some? ==> Empty(s))
    case SetEntry(span) => InStep(s) && s.tree == Some(span) && (c.cleared ==> Empty(s))
    case SetTag(span) => s.tree == s.entry == Some(span) && (c.cleared ==> s.tag == 0)
    case ClearTag => InStep(s) && s.tree == None
    case ClearEntry => s.tag == 0 && s.tree == None
  }

  /** At most one writer is busy. */
  predicate OneBusy(writers: seq<Pc>) {
    forall t, q :: 0 <= t < |writers| && 0 <= q < |writers| && writers[t] != Idle && writers[q] != Idle ==> t == q
  }

  ghost predicate Inv(c: Config, s: Sys) {
    && |s.writers| == c.writers && OneBusy(s.writers)
    && (forall t :: 0 <= t < |s.writers| ==> Progress(c, s, s.writers[t]))
    && Named(s) && Agrees(s) && (c.cleared ==> Matches(s))
  }

  lemma {:induction false} MoveKeeps(c: Config, s: Sys, t: nat)
    requires Inv(c, s) && t < |s.writers| && s.writers[t] != Idle
    ensures Inv(c, Move(s, t))
  {
    assert PageTag(None) == 0;
    assert Progress(c, s, s.writers[t]);
    hide PageTag;
    var u := Move(s, t);
    forall q | 0 <= q < |u.writers| && q != t ensures u.writers[q] == Idle {
    }
    assert Quiet(u.writers) ==> u.writers[t] == Idle;
  }

  lemma {:induction false} CallKeeps(c: Config, s: Sys, t: nat, span: SpanPtr)
    requires c.Apart() && Inv(c, s) && t < |s.writers| && s.writers[t] == Idle && MayCall(c, s, span)
    ensures Inv(c, s.(writers := s.writers[t := StoreTree(span)]))
  {
    assert PageTag(None) == 0;
    hide PageTag;
    var u := s.(writers := s.writers[t := StoreTree(span)]);
    assert Quiet(s.writers);
    assert u.writers[t] != Idle;
  }

  lemma {:induction false} RunKeeps(c: Config, schedule: seq<Action>)
    requires c.Apart()
    ensures Inv(c, Run(c, schedule))
  {
    if schedule != [] {
      var m := |schedule| - 1;
      RunKeeps(c, schedule[..m]);
      var s, a := Run(c, schedule[..m]), schedule[m];
      hide Inv, PageTag;
      if a.writer < |s.writers| {
        if a.Step? && s.writers[a.writer] != Idle {
          MoveKeeps(c, s, a.writer);
        } else if a.Call? && s.writers[a.writer] == Idle && MayCall(c, s, a.span) {
          CallKeeps(c, s, a.writer, a.span);
        }
      }
    }
  }

  // -------------------------------------------------------------- runs that break it

  lemma {:induction false} Extend(c: Config, schedule: seq<Action>, a: Action) returns (longer: seq<Action>)
    ensures longer == schedule + [a] && Run(c, longer) == Fire(c, Run(c, schedule), a)
  {
    longer := schedule + [a];
    assert longer[..|schedule|] == schedule;
  }

  const SMALL := Span(0, false, 0, 0)
  const LARGE := Span(1, true, 0, 0)

  lemma {:induction false} Tags()
    ensures PageTag(Some(SMALL)) == 0x8000 && PageTag(Some(LARGE)) == 0 && PageTag(None) == 0
  {
  }

  /** Writer t starts a set and makes its first `stores` stores. */
  lemma {:induction false} Begin(c: Config, schedule: seq<Action>, t: nat, span: Span, stores: nat)
    returns (longer: seq<Action>)
    requires var s := Run(c, schedule);
             t < |s.writers| && s.writers[t] == Idle && MayCall(c, s, Some(span)) && 1 <= stores <= 3
    ensures var s := Run(c, schedule);
            Run(c, longer) == Sys(Some(span), if stores > 1 then Some(span) else s.entry,
                                  if stores > 2 then PageTag(Some(span)) else s.tag,
                                  s.writers[t := if stores == 1 then SetEntry(span)
                                                 else if stores == 2 then SetTag(span) else Idle])
  {
    hide PageTag, Run, Quiet;
    longer := Extend(c, schedule, Call(t, Some(span)));
    longer := Extend(c, longer, Step(t));
    if stores > 1 {
      longer := Extend(c, longer, Step(t));
    }
    if stores > 2 {
      longer := Extend(c, longer, Step(t));
    }
  }

  /** Writer t clears the page, from call to return. */
  lemma {:induction false} Wipe(c: Config, schedule: seq<Action>, t: nat) returns (longer: seq<Action>)
    requires var s := Run(c, schedule); t < |s.writers| && s.writers[t] == Idle && MayCall(c, s, None)
    ensures Run(c, longer) == Sys(None, None, 0, Run(c, schedule).writers)
  {
    hide PageTag, Run, Quiet;
    longer := Extend(c, schedule, Call(t, None));
    longer := Extend(c, longer, Step(t));
    longer := Extend(c, longer, Step(t));
    longer := Extend(c, longer, Step(t));
  }

  /** A set over a set, even by one writer alone: between its stores the tag is that of the span before. */
  lemma {:induction false} SetOverSetMismatches(c: Config) returns (schedule: seq<Action>)
    requires !c.cleared && c.writers > 0
    ensures !MatchingRun(c, schedule)
  {
    Tags();
    assert Run(c, []) == Init(c);
    assert Quiet(Init(c).writers);
    schedule := Begin(c, [], 0, SMALL, 3);
    hide PageTag, Run;
    assert Quiet(Run(c, schedule).writers);
    schedule := Begin(c, schedule, 0, LARGE, 2);
  }

  /** A clear between the stores of a set leaves, once both are done, a tag without an entry. */
  lemma {:induction false} OverlapLosesEntry(c: Config) returns (schedule: seq<Action>)
    requires !c.Apart()
    ensures !NamedRun(c, schedule) && !MatchingRun(c, schedule) && !AgreeingRun(c, schedule)
  {
    Tags();
    assert Run(c, []) == Init(c);
    schedule := Begin(c, [], 0, SMALL, 2);
    hide PageTag, Run;
    schedule := Wipe(c, schedule, 1);
    schedule := Extend(c, schedule, Step(0));
    assert Quiet(Run(c, schedule).writers);
  }

  /** Two overlapping sets can finish with one span in the tree and the other in the flat table. */
  lemma {:induction false} TreeAndFlatDisagree(c: Config) returns (schedule: seq<Action>)
    requires !c.Apart()
    ensures var s := Run(c, schedule); Quiet(s.writers) && s.tree == Some(LARGE) && s.entry == Some(SMALL)
  {
    assert Run(c, []) == Init(c);
    schedule := Begin(c, [], 0, SMALL, 1);
    hide PageTag, Run;
    schedule := Begin(c, schedule, 1, LARGE, 3);
    schedule := Extend(c, schedule, Step(0));
    schedule := Extend(c, schedule, Step(0));
  }

  // -------------------------------------------------------------- exact conditions

  /** In every run a nonzero tag names a published entry, exactly when writes to one page do not overlap. */
  lemma {:induction false} NamedIffExclusive(c: Config)
    ensures (forall schedule :: NamedRun(c, schedule)) <==> c.Apart()
  {
    if c.Apart() {
      forall schedule ensures NamedRun(c, schedule) {
        RunKeeps(c, schedule);
      }
    } else {
      var schedule := OverlapLosesEntry(c);
    }
  }

  /** In every run a nonzero tag is the tag of the entry, exactly when writes to one page do not overlap
      and a span is set only over a cleared entry. */
  lemma {:induction false} MatchesIff(c: Config)
    ensures (forall schedule :: MatchingRun(c, schedule)) <==> c.writers == 0 || (c.Apart() && c.cleared)
  {
    if c.Apart() && (c.cleared || c.writers == 0) {
      forall schedule ensures MatchingRun(c, schedule) {
        RunKeeps(c, schedule);
      }
    } else if !c.Apart() {
      var schedule := OverlapLosesEntry(c);
    } else {
      var schedule := SetOverSetMismatches(c);
    }
  }

  /** In every run tree, flat entry and tag agree whenever no write is under way, exactly when writes to
      one page do not overlap. */
  lemma {:induction false} AgreesIff(c: Config)
    ensures (forall schedule :: AgreeingRun(c, schedule)) <==> c.Apart()
  {
    if c.Apart() {
      forall schedule ensures AgreeingRun(c, schedule) {
        RunKeeps(c, schedule);
      }
    } else {
      var schedule := OverlapLosesEntry(c);
    }
  }

  /** A write that is left alone leaves its span in the tree and in the flat table, with its tag. */
  lemma {:induction false} WriteTakesEffect(c: Config, s: Sys, t: nat, span: SpanPtr)
    requires t < |s.writers| && s.writers[t] == Idle && MayCall(c, s, span)
    ensures Fire(c, Fire(c, Fire(c, Fire(c, s, Call(t, span)), Step(t)), Step(t)), Step(t)) ==
            Sys(span, span, PageTag(span), s.writers)
  {
    assert PageTag(None) == 0;
    hide PageTag, MayCall;
    var u := Fire(c, Fire(c, s, Call(t, span)), Step(t));
    assert u.writers[t] == (if span.Some? then SetEntry(span.value) else ClearTag) && u.tree == span;
    var v := Fire(c, u, Step(t));
    assert v.writers[t] == if span.Some? then SetTag(span.value) else ClearEntry;
    assert v.writers[t := Idle] == s.writers;
  }
}
