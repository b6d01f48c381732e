/** The page tracker of the compress-only library (src/smash_compress_only.cpp): an
    insert-only, open-addressed hash set of page addresses with a bounded probe window. */
module ProbeTable {

  const PAGE: nat := 4096
  const CAPACITY: nat := 2 * 1024 * 1024
  const WINDOW: nat := 128

  /** The k-th slot probed for a page. */
  function Slot(page: nat, k: nat): (i: nat)
    ensures i < CAPACITY
  {
    ((page / PAGE) % CAPACITY + k) % CAPACITY
  }

  /** A table of CAPACITY slots; 0 marks an empty one. */
  type Slots = s: seq<nat> | |s| == CAPACITY witness seq(CAPACITY, _ => 0)

  function Pages(s: Slots): set<nat> {
    set p | p in s && p != 0
  }

  /** The first k slots probed for `page` are all taken by other pages. */
  predicate TakenByOthers(s: Slots, page: nat, k: nat) {
    forall j :: 0 <= j < k ==> s[Slot(page, j)] != 0 && s[Slot(page, j)] != page
  }

  /** `page` sits at its k-th slot, and every slot probed before is taken by another page. */
  predicate Placed(s: Slots, page: nat, k: nat) {
    k < WINDOW && s[Slot(page, k)] == page && TakenByOthers(s, page, k)
  }

  ghost predicate PlacedAt(s: Slots, i: nat)
    requires i < CAPACITY
  {
    exists k: nat :: Slot(s[i], k) == i && Placed(s, s[i], k)
  }

  /** Every page in the table is where a probe for it finds it. */
  ghost predicate WellPlaced(s: Slots) {
    forall i :: 0 <= i < CAPACITY && s[i] != 0 ==> PlacedAt(s, i)
  }

  /** The table no longer has room for `page`. */
  predicate Dropped(s: Slots, page: nat) {
    TakenByOthers(s, page, WINDOW)
  }

  /** Slots are write-once. */
  predicate Extends(s: Slots, t: Slots) {
    forall i :: 0 <= i < CAPACITY && s[i] != 0 ==> t[i] == s[i]
  }

  /** No page sits in two slots. */
  lemma {:induction false} PlacedOnce(s: Slots, i: nat, j: nat)
    requires WellPlaced(s) && i < CAPACITY && j < CAPACITY && i != j && s[i] != 0
    ensures s[i] != s[j]
  {
    if s[j] != 0 {
      assert PlacedAt(s, i) && PlacedAt(s, j);
      var ki: nat :| Slot(s[i], ki) == i && Placed(s, s[i], ki);
      var kj: nat :| Slot(s[j], kj) == j && Placed(s, s[j], kj);
      assert s[i] == s[j] ==> !(ki < kj) && !(kj < ki);
    }
  }

  /** A page in the table sits in its window, so the window is not full of others. */
  lemma {:induction false} TrackedIsNotDropped(s: Slots, page: nat)
    requires WellPlaced(s) && page in Pages(s)
    ensures !Dropped(s, page)
  {
    var i :| 0 <= i < CAPACITY && s[i] == page;
    assert PlacedAt(s, i);
    var k: nat :| Slot(s[i], k) == i && Placed(s, s[i], k);
    assert s[Slot(page, k)] == page;
  }

  /** Taking the first empty slot of the probe sequence adds exactly that page. */
  lemma {:induction false} TakeSlot(s: Slots, page: nat, k: nat)
    requires WellPlaced(s) && page != 0 && k < WINDOW
    requires TakenByOthers(s, page, k) && s[Slot(page, k)] == 0
    ensures var t := s[Slot(page, k) := page];
            && WellPlaced(t) && Extends(s, t)
            && page !in Pages(s) && Pages(t) == Pages(s) + {page} && !Dropped(s, page)
  {
    var e := Slot(page, k);
    var t := s[e := page];
    forall i | 0 <= i < CAPACITY && s[i] != 0 ensures s[i] != page && PlacedAt(t, i) {
      assert PlacedAt(s, i);
      var m: nat :| Slot(s[i], m) == i && Placed(s, s[i], m);
      assert Placed(t, t[i], m);
    }
    assert Placed(t, page, k);
    assert Pages(t) == Pages(s) + {page} by {
      assert forall p :: p in s && p != 0 ==> p in t by {
        forall p | p in s && p != 0 ensures p in t {
          var i :| 0 <= i < CAPACITY && s[i] == p;
          assert t[i] == p;
        }
      }
      assert t[e] == page;
    }
  }

  lemma {:induction false} FoundInWindow(s: Slots, page: nat, k: nat)
    requires page != 0 && k < WINDOW && s[Slot(page, k)] == page
    ensures page in Pages(s) && !Dropped(s, page)
  {
  }

  lemma {:induction false} ExtendsKeepsDropped(s: Slots, t: Slots, page: nat)
    requires Extends(s, t) && Dropped(s, page)
    ensures Dropped(t, page)
  {
  }

  // -------------------------------------------------------------- how windows spread

  /** The slots of one window are different ones. */
  lemma {:induction false} WindowSpreads(page: nat, j: nat, k: nat)
    requires j < k < WINDOW
    ensures Slot(page, j) != Slot(page, k)
  {
  }

  ghost function Occupants(s: Slots, page: nat, k: nat): set<nat> {
    set j: nat | j < k :: s[Slot(page, j)]
  }

  lemma {:induction false} OneMoreOccupant(s: Slots, page: nat, k: nat)
    requires WellPlaced(s) && TakenByOthers(s, page, k + 1) && k < WINDOW
    ensures s[Slot(page, k)] !in Occupants(s, page, k)
    ensures Occupants(s, page, k + 1) == Occupants(s, page, k) + {s[Slot(page, k)]}
  {
    forall j: nat | j < k ensures s[Slot(page, j)] != s[Slot(page, k)] {
      WindowSpreads(page, j, k);
      hide Slot;
      PlacedOnce(s, Slot(page, k), Slot(page, j));
    }
    hide Slot, WellPlaced;
  }

  lemma {:induction false} OccupantsDiffer(s: Slots, page: nat, k: nat)
    requires WellPlaced(s) && TakenByOthers(s, page, k) && k <= WINDOW
    ensures |Occupants(s, page, k)| == k && Occupants(s, page, k) <= Pages(s) - {page}
  {
    if k == 0 {
      assert Occupants(s, page, 0) == {};
    } else {
      OccupantsDiffer(s, page, k - 1);
      OneMoreOccupant(s, page, k - 1);
      hide Occupants, WellPlaced;
      assert s[Slot(page, k - 1)] in Pages(s) - {page};
    }
  }

  lemma {:induction false} SizeOfSubset(a: set<nat>, b: set<nat>)
    requires a <= b
    ensures |a| <= |b|
  {
    assert b == a + (b - a);
  }

  /** A page is dropped only when 128 other pages are tracked. */
  lemma {:induction false} DroppedMeansFull(s: Slots, page: nat)
    requires WellPlaced(s) && Dropped(s, page)
    ensures |Pages(s) - {page}| >= WINDOW && |Pages(s)| >= WINDOW
  {
    OccupantsDiffer(s, page, WINDOW);
    SizeOfSubset(Occupants(s, page, WINDOW), Pages(s) - {page});
    SizeOfSubset(Pages(s) - {page}, Pages(s));
  }

  /** One of the CAPACITY consecutive pages from `base` on. */
  predicate InRun(page: nat, base: nat) {
    base % PAGE == 0 && page % PAGE == 0 && base <= page < base + CAPACITY * PAGE
  }

  /** Every page of the table is from that run and in the first slot of its window. */
  predicate AtHome(s: Slots, base: nat) {
    forall i :: 0 <= i < CAPACITY && s[i] != 0 ==> InRun(s[i], base) && i == Slot(s[i], 0)
  }

  lemma {:induction false} HomesDiffer(p: nat, q: nat, base: nat)
    requires InRun(p, base) && InRun(q, base) && p != q
    ensures Slot(p, 0) != Slot(q, 0)
  {
    var a, b := p / PAGE, q / PAGE;
    assert p == a * PAGE && q == b * PAGE;
    assert a - b < CAPACITY && b - a < CAPACITY;
    assert Slot(p, 0) == a % CAPACITY && Slot(q, 0) == b % CAPACITY;
  }

  lemma {:induction false} HomeIsFree(s: Slots, page: nat, base: nat)
    requires AtHome(s, base) && InRun(page, base)
    ensures !Dropped(s, page)
  {
    var q := s[Slot(page, 0)];
    if q != 0 && q != page {
      HomesDiffer(q, page, base);
    }
  }

  lemma {:induction false} StayedHome(s: Slots, t: Slots, page: nat, base: nat, i: nat)
    requires WellPlaced(t) && Extends(s, t) && Pages(t) == Pages(s) + {page} && AtHome(s, base)
    requires i < CAPACITY && t[i] != 0 && t[i] != page
    ensures InRun(t[i], base) && i == Slot(t[i], 0)
  {
    assert t[i] in Pages(t);
    var j :| 0 <= j < CAPACITY && s[j] == t[i];
    if i != j {
      PlacedOnce(t, i, j);
    }
  }

  /** Adding a page of the run leaves every page at home. */
  lemma {:induction false} TrackKeepsHome(s: Slots, t: Slots, page: nat, base: nat)
    requires WellPlaced(t) && Extends(s, t) && Pages(t) == Pages(s) + {page}
    requires AtHome(s, base) && InRun(page, base) && page != 0
    ensures AtHome(t, base)
  {
    forall i | 0 <= i < CAPACITY && t[i] != 0 && t[i] != page ensures InRun(t[i], base) && i == Slot(t[i], 0) {
      StayedHome(s, t, page, base, i);
    }
    forall i | 0 <= i < CAPACITY && t[i] == page ensures i == Slot(page, 0) {
      assert PlacedAt(t, i);
      var k: nat :| Slot(t[i], k) == i && Placed(t, t[i], k);
      if k > 0 {
        var q := t[Slot(page, 0)];
        assert q != 0 && q != page;
        StayedHome(s, t, page, base, Slot(page, 0));
        HomesDiffer(q, page, base);
      }
    }
  }
}

module PageTracker {
  import opened ProbeTable

  const ADDRESSES: nat := 0x1_0000_0000_0000_0000

  function PageOf(addr: nat): nat { addr - addr % PAGE }

  /** An interposed call and what the system allocator returned for it (0 for NULL). */
  datatype Call = Malloc(ptr: nat, size: nat) | Calloc(ptr: nat, count: nat, each: nat) | Realloc(ptr: nat, size: nat) {
    /** Bytes tracked from ptr on; calloc multiplies in 64 bits. */
    function Bytes(): nat {
      if Calloc? then (count * each) % ADDRESSES else size
    }

    /** The range ends before the last page, so stepping past it does not wrap. */
    predicate InMemory() {
      ptr + Bytes() <= ADDRESSES - PAGE
    }

    /** The call returned memory that overlaps the page at address p. */
    predicate Meets(p: nat) {
      p != 0 && p % PAGE == 0 && ptr != 0 && Bytes() > 0 && p < ptr + Bytes() && ptr < p + PAGE
    }
  }

  /** q is the address of a page between two others, inclusive. */
  predicate OnPages(q: nat, start: nat, end: nat) {
    q != 0 && q % PAGE == 0 && start <= q <= end
  }

  /** The pages met by a range are those from the page of its first byte to that of its last. */
  lemma {:induction false} MeetsIsPageRange(ptr: nat, size: nat, q: nat)
    requires ptr != 0 && size > 0
    ensures Malloc(ptr, size).Meets(q) <==> OnPages(q, PageOf(ptr), PageOf(ptr + size - 1))
  {
  }

  lemma {:induction false} NextPage(q: nat, start: nat, end: nat, p: nat)
    requires p % PAGE == 0 && start <= p <= end
    ensures OnPages(q, start, end) && q < p + PAGE <==> (OnPages(q, start, end) && q < p) || (q == p != 0)
  {
  }

  /** Some call so far returned memory on page p. */
  ghost predicate Touched(calls: seq<Call>, p: nat) {
    exists c :: c in calls && c.Meets(p)
  }

  /** The tracked pages are exactly the wanted ones whose window is not full of other pages. */
  ghost predicate Exactly(s: Slots, want: set<nat>) {
    forall p :: p in Pages(s) <==> p in want && !Dropped(s, p)
  }

  lemma {:induction false} TrackKeepsExact(s: Slots, t: Slots, want: set<nat>, page: nat)
    requires WellPlaced(s) && WellPlaced(t) && Extends(s, t) && Exactly(s, want)
    requires page != 0
    requires Pages(t) == if Dropped(s, page) then Pages(s) else Pages(s) + {page}
    ensures Exactly(t, want + {page})
  {
    forall p ensures p in Pages(t) <==> p in want + {page} && !Dropped(t, p) {
      if p in Pages(t) {
        TrackedIsNotDropped(t, p);
      } else if p in want + {page} {
        assert Dropped(s, p);
        ExtendsKeepsDropped(s, t, p);
      }
    }
  }

  /** The loop over start..end has come to p: the pages before it have joined those wanted. */
  ghost predicate RangeDone(more: set<nat>, want: set<nat>, start: nat, end: nat, p: nat) {
    p % PAGE == 0 && forall q: nat :: q in more <==> q in want || (OnPages(q, start, end) && q < p)
  }

  lemma {:induction false} RangeStarts(want: set<nat>, start: nat, end: nat)
    requires start % PAGE == 0
    ensures RangeDone(want, want, start, end, start)
  {
  }

  lemma {:induction false} RangeGrows(more: set<nat>, had: set<nat>, want: set<nat>, start: nat, end: nat, p: nat)
    requires RangeDone(had, want, start, end, p) && more == if p == 0 then had else had + {p}
    requires start <= p <= end
    ensures RangeDone(more, want, start, end, p + PAGE)
  {
    hide OnPages;
    forall q: nat ensures q in more <==> q in want || (OnPages(q, start, end) && q < p + PAGE) {
      NextPage(q, start, end, p);
      assert q in more <==> q in had || q == p != 0;
    }
  }

  lemma {:induction false} RangeEnds(more: set<nat>, want: set<nat>, start: nat, end: nat, p: nat)
    requires RangeDone(more, want, start, end, p) && p > end
    ensures forall q: nat :: q in more <==> q in want || OnPages(q, start, end)
  {
  }

  /** As long as all wanted pages are from that run, every page is at home. */
  ghost predicate Homely(s: Slots, want: set<nat>, base: nat) {
    (forall q :: q in want ==> InRun(q, base)) ==> AtHome(s, base)
  }

  lemma {:induction false} EmptyIsHomely(s: Slots, base: nat)
    requires Pages(s) == {}
    ensures Homely(s, {}, base)
  {
    assert forall i :: 0 <= i < CAPACITY && s[i] != 0 ==> s[i] in Pages(s);
  }

  lemma {:induction false} TrackKeepsHomely(s: Slots, t: Slots, want: set<nat>, page: nat, base: nat)
    requires WellPlaced(t) && Extends(s, t) && Homely(s, want, base) && page != 0
    requires Pages(t) == if Dropped(s, page) then Pages(s) else Pages(s) + {page}
    ensures Homely(t, want + {page}, base)
  {
    hide WellPlaced, Extends, Pages, Dropped, AtHome, InRun;
    if forall q :: q in want + {page} ==> InRun(q, base) {
      assert page in want + {page} && forall q :: q in want ==> q in want + {page};
      HomeIsFree(s, page, base);
      TrackKeepsHome(s, t, page, base);
    }
  }

  class Tracker {
    var slots: array<nat>
    var count: nat

    ghost predicate Valid()
      reads this, slots
    {
      && slots.Length == CAPACITY
      && WellPlaced(slots[..])
      && count == |Pages(slots[..])|
    }

    constructor ()
      ensures Valid() && fresh(slots)
      ensures Pages(slots[..]) == {}
    {
      slots := new nat[CAPACITY](_ => 0);
      count := 0;
      new;
      assert slots[..] == seq(CAPACITY, _ => 0);
      assert Pages(slots[..]) == {};
    }

    /** Adds the page unless its whole window is taken by others. */
    method Track(page: nat)
      requires Valid()
      modifies this`count, slots
      ensures Valid() && slots == old(slots) && Extends(old(slots[..]), slots[..])
      ensures Pages(slots[..]) == if page == 0 || Dropped(old(slots[..]), page) then old(Pages(slots[..]))
                                  else old(Pages(slots[..])) + {page}
      ensures page == 0 || Dropped(old(slots[..]), page) || page in old(Pages(slots[..])) ==>
                slots[..] == old(slots[..])
    {
      if page == 0 {
        return;
      }
      var idx := (page / PAGE) % CAPACITY;
      for probe := 0 to WINDOW
        invariant slots[..] == old(slots[..]) && count == old(count)
        invariant TakenByOthers(slots[..], page, probe)
      {
        var i := (idx + probe) % CAPACITY;
        assert i == Slot(page, probe) && slots[i] == slots[..][i];
        hide WellPlaced, Pages;
        var cur := slots[i];
        if cur == page {
          FoundInWindow(slots[..], page, probe);
          assert Pages(slots[..]) == Pages(slots[..]) + {page};
          return;
        }
        if cur == 0 {
          TakeSlot(slots[..], page, probe);
          slots[i] := page;
          assert slots[..] == old(slots[..])[i := page];
          count := count + 1;
          return;
        }
      }
    }

    /** One round of the page loop. */
    method TrackNext(p: nat, ghost want: set<nat>, ghost base: nat) returns (ghost more: set<nat>)
      requires Valid() && Exactly(slots[..], want) && Homely(slots[..], want, base)
      modifies this`count, slots
      ensures Valid() && slots == old(slots) && Exactly(slots[..], more) && Homely(slots[..], more, base)
      ensures more == if p == 0 then want else want + {p}
    {
      hide Exactly, WellPlaced, Dropped, Extends, Homely;
      ghost var before := slots[..];
      more := want;
      Track(p);
      if p != 0 {
        TrackKeepsExact(before, slots[..], more, p);
        TrackKeepsHomely(before, slots[..], more, p, base);
        more := more + {p};
      }
    }

    /** Tracks every page from `start` to `end`. */
    method TrackRange(start: nat, end: nat, ghost want: set<nat>, ghost base: nat) returns (ghost more: set<nat>)
      requires Valid() && Exactly(slots[..], want) && Homely(slots[..], want, base) && start % PAGE == 0
      modifies this`count, slots
      ensures Valid() && slots == old(slots) && Exactly(slots[..], more) && Homely(slots[..], more, base)
      ensures forall q: nat :: q in more <==> q in want || OnPages(q, start, end)
    {
      assert slots.Length == CAPACITY;
      RangeStarts(want, start, end);
      hide Exactly, Homely, Valid, RangeDone, OnPages;
      more := want;
      var p := start;
      while p <= end
        invariant start <= p
        invariant Valid() && slots == old(slots) && Exactly(slots[..], more) && Homely(slots[..], more, base)
        invariant RangeDone(more, want, start, end, p)
        decreases end + PAGE - p
      {
        ghost var had := more;
        more := TrackNext(p, more, base);
        RangeGrows(more, had, want, start, end, p);
        p := p + PAGE;
      }
      RangeEnds(more, want, start, end, p);
    }

    /** Tracks every page of [ptr, ptr + size). */
    method TrackPages(ptr: nat, size: nat, ghost want: set<nat>, ghost base: nat) returns (ghost more: set<nat>)
      requires Valid() && Exactly(slots[..], want) && Homely(slots[..], want, base)
      requires Malloc(ptr, size).InMemory()
      modifies this`count, slots
      ensures Valid() && slots == old(slots) && Exactly(slots[..], more) && Homely(slots[..], more, base)
      ensures forall q: nat :: q in more <==> q in want || Malloc(ptr, size).Meets(q)
    {
      more := want;
      if ptr == 0 || size == 0 {
        return;
      }
      var start := PageOf(ptr);
      assert start % PAGE == 0;
      hide Exactly, OnPages, PageOf, WellPlaced, Call.Meets, Homely;
      more := TrackRange(start, PageOf(ptr + size - 1), want, base);
      forall q: nat ensures q in more <==> q in want || Malloc(ptr, size).Meets(q) {
        MeetsIsPageRange(ptr, size, q);
      }
    }

    /** One interposed call, after the system allocator has answered. */
    method Interpose(call: Call, ghost want: set<nat>, ghost base: nat) returns (ghost more: set<nat>)
      requires Valid() && Exactly(slots[..], want) && Homely(slots[..], want, base)
      requires call.InMemory()
      modifies this`count, slots
      ensures Valid() && slots == old(slots) && Exactly(slots[..], more) && Homely(slots[..], more, base)
      ensures forall q: nat :: q in more <==> q in want || call.Meets(q)
    {
      match call
      case Malloc(ptr, size) => more := TrackPages(ptr, size, want, base);
      case Calloc(ptr, count, each) => more := TrackPages(ptr, (count * each) % ADDRESSES, want, base);
      case Realloc(ptr, size) => more := TrackPages(ptr, size, want, base);
    }

    /** Any sequence of calls: tracked are exactly the pages touched, except those whose window is
        full of other pages; `count` is their number.  When all pages touched are from one run of
        CAPACITY consecutive pages, none is left out. */
    method Replay(calls: seq<Call>, ghost base: nat)
      requires Valid() && Pages(slots[..]) == {}
      requires forall c :: c in calls ==> c.InMemory()
      modifies this`count, slots
      ensures Valid() && slots == old(slots)
      ensures forall p :: p in Pages(slots[..]) <==> Touched(calls, p) && !Dropped(slots[..], p)
      ensures count == |Pages(slots[..])|
      ensures (forall p :: Touched(calls, p) ==> InRun(p, base)) ==>
                forall p :: p in Pages(slots[..]) <==> Touched(calls, p)
    {
      ghost var want: set<nat> := {};
      EmptyIsHomely(slots[..], base);
      for i := 0 to |calls|
        invariant Valid() && slots == old(slots)
        invariant Exactly(slots[..], want) && Homely(slots[..], want, base)
        invariant forall p :: p in want <==> Touched(calls[..i], p)
      {
        ghost var before := want;
        want := Interpose(calls[i], want, base);
        forall p ensures p in want <==> Touched(calls[..i + 1], p) {
          assert calls[..i + 1] == calls[..i] + [calls[i]];
          if p in want && p !in before {
            assert calls[i] in calls[..i + 1] && calls[i].Meets(p);
          }
        }
      }
      assert calls[..|calls|] == calls;
      if forall p :: Touched(calls, p) ==> InRun(p, base) {
        forall p | Touched(calls, p) ensures !Dropped(slots[..], p) {
          HomeIsFree(slots[..], p, base);
        }
      }
    }
  }
}
