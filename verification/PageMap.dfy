/** The page map (src/core/page_map.h): a two-level radix tree from pages to spans, and the
    flat table of the attached VM region (src/vm/vm_region.h, full mode) that mirrors it. */
module Spans {
  import opened Basics

  /** A span; `sizeClass` and `arena` are the bytes the page tag is made of. */
  datatype Span = Span(id: nat, isLarge: bool, arena: bv8, sizeClass: bv8)

  /** A possibly null span pointer. */
  type SpanPtr = Option<Span>

  const TAG_SMALL: bv16 := 0x8000

  function PageTag(p: SpanPtr): bv16 {
    if p.None? || p.value.isLarge then 0
    else TAG_SMALL | ((p.value.arena as bv16) << 6) | (p.value.sizeClass as bv16)
  }

  /** With fewer than 64 size classes a tag is zero exactly for no span or a large span, and
      otherwise gives back arena and size class. */
  lemma {:induction false} TagDecodes(p: SpanPtr)
    requires p.Some? ==> p.value.sizeClass < 64
    ensures PageTag(p) == 0 <==> p.None? || p.value.isLarge
    ensures PageTag(p) != 0 ==>
              ((PageTag(p) >> 6) & 0xFF) as bv8 == p.value.arena && (PageTag(p) & 0x3F) as bv8 == p.value.sizeClass
  {
  }
}

/** What the radix tree and the flat table should hold, over plain maps and sequences. */
module PageMapSpec {
  import opened Basics
  import opened Spans

  /** Pages that have a span. */
  type View = map<nat, Span>

  function Lookup(v: View, page: nat): SpanPtr {
    if page in v then Some(v[page]) else None
  }

  function Put(v: View, page: nat, span: SpanPtr): View {
    if span.Some? then v[page := span.value] else v - {page}
  }

  /** Setting n consecutive pages one by one. */
  function PutRange(v: View, first: nat, n: nat, span: SpanPtr): View {
    if n == 0 then v else Put(PutRange(v, first, n - 1, span), first + n - 1, span)
  }

  lemma {:induction false} PutRangeAt(v: View, first: nat, n: nat, span: SpanPtr, page: nat)
    ensures Lookup(PutRange(v, first, n, span), page) == if first <= page < first + n then span else Lookup(v, page)
  {
    if n > 0 {
      PutRangeAt(v, first, n - 1, span, page);
    }
  }

  lemma {:induction false} PutRangeJoins(v: View, first: nat, a: nat, b: nat, span: SpanPtr)
    ensures PutRange(PutRange(v, first, a, span), first + a, b, span) == PutRange(v, first, a + b, span)
  {
    if b > 0 {
      PutRangeJoins(v, first, a, b - 1, span);
      assert first + a + b - 1 == first + (a + b) - 1;
    }
  }

  // -------------------------------------------------------------- the region

  /** A contiguous arena of `contig` pages, then a tail of external pages with indices of their own. */
  datatype Region = Region(base: nat, contig: nat, total: nat, external: map<nat, nat>) {
    predicate InArena(page: nat) { base <= page < base + contig }

    predicate Contains(page: nat) { InArena(page) || page in external }

    function Index(page: nat): nat
      requires Contains(page)
    {
      if InArena(page) then page - base else external[page]
    }

    ghost predicate WellFormed() {
      && contig <= total
      && (forall p :: p in external ==> !InArena(p) && contig <= external[p] < total)
      && (forall p, q :: p in external && q in external && p != q ==> external[p] != external[q])
    }
  }

  /** The mirror of one `set`. */
  function MirrorOne<T>(r: Region, table: seq<T>, page: nat, x: T): (u: seq<T>)
    ensures |u| == |table|
  {
    if r.Contains(page) && r.Index(page) < |table| then table[r.Index(page) := x] else table
  }

  /** The mirror of n single `set`s. */
  function MirrorEach<T>(r: Region, table: seq<T>, first: nat, n: nat, x: T): (u: seq<T>)
    ensures |u| == |table|
  {
    if n == 0 then table else MirrorOne(r, MirrorEach(r, table, first, n - 1, x), first + n - 1, x)
  }

  /** n consecutive entries from i on. */
  function Fill<T>(table: seq<T>, i: nat, n: nat, x: T): (u: seq<T>)
    requires i + n <= |table|
    ensures |u| == |table|
    ensures forall j :: 0 <= j < |table| ==> u[j] == if i <= j < i + n then x else table[j]
  {
    table[..i] + seq(n, _ => x) + table[i + n..]
  }

  /** The mirror of one `setRange`: decided by its first page, dropped when it runs past the table. */
  function MirrorRun<T>(r: Region, table: seq<T>, first: nat, n: nat, x: T): (u: seq<T>)
    ensures |u| == |table|
  {
    if r.Contains(first) && r.Index(first) + n <= |table| then Fill(table, r.Index(first), n, x) else table
  }

  /** The run misses the region, or lies in it with every index within n of the first one. */
  predicate RunFits(r: Region, first: nat, n: nat) {
    || (forall p :: first <= p < first + n ==> !r.Contains(p))
    || (r.Contains(first) && forall p :: first <= p < first + n ==>
          r.Contains(p) && r.Index(first) <= r.Index(p) < r.Index(first) + n)
  }

  /** The table entries that single `set`s of the run write. */
  ghost function Hits(r: Region, first: nat, n: nat): set<nat> {
    set p: nat | first <= p < first + n && r.Contains(p) :: r.Index(p)
  }

  lemma {:induction false} HitsSnoc(r: Region, first: nat, n: nat)
    requires n > 0
    ensures Hits(r, first, n) ==
            Hits(r, first, n - 1) + if r.Contains(first + n - 1) then {r.Index(first + n - 1)} else {}
  {
  }

  predicate AllIn(r: Region, first: nat, n: nat) {
    forall p :: first <= p < first + n ==> r.Contains(p)
  }

  lemma {:induction false} IndexInjective(r: Region, p: nat, q: nat)
    requires r.WellFormed() && r.Contains(p) && r.Contains(q) && p != q
    ensures r.Index(p) != r.Index(q) && r.Index(p) < r.total
  {
  }

  lemma {:induction false} HitsGrow(r: Region, first: nat, n: nat)
    requires r.WellFormed() && n > 0
    ensures |Hits(r, first, n)| == |Hits(r, first, n - 1)| + if r.Contains(first + n - 1) then 1 else 0
  {
    HitsSnoc(r, first, n);
    var last := first + n - 1;
    if r.Contains(last) {
      forall p | first <= p < last && r.Contains(p) ensures r.Index(p) != r.Index(last) {
        IndexInjective(r, p, last);
      }
    }
  }

  /** Distinct pages have distinct entries, so the run has n entries only if it lies in the region. */
  lemma {:induction false} HitsSize(r: Region, first: nat, n: nat)
    requires r.WellFormed()
    ensures |Hits(r, first, n)| <= n
    ensures |Hits(r, first, n)| == n <==> AllIn(r, first, n)
  {
    if n == 0 {
      assert Hits(r, first, 0) == {};
    } else {
      hide Hits;
      HitsSize(r, first, n - 1);
      HitsGrow(r, first, n);
      assert AllIn(r, first, n) <==> AllIn(r, first, n - 1) && r.Contains(first + n - 1);
    }
  }

  lemma {:induction false} EachIsHits<T>(r: Region, table: seq<T>, first: nat, n: nat, x: T, j: nat)
    requires r.WellFormed() && |table| == r.total && j < |table|
    ensures MirrorEach(r, table, first, n, x)[j] == if j in Hits(r, first, n) then x else table[j]
  {
    if n > 0 {
      EachIsHits(r, table, first, n - 1, x, j);
      HitsSnoc(r, first, n);
    }
  }

  /** Entries written by one `setRange`. */
  ghost function RunHits(r: Region, first: nat, n: nat): set<nat> {
    if r.Contains(first) && r.Index(first) + n <= r.total then Window(r.Index(first), n) else {}
  }

  lemma {:induction false} RunIsRunHits<T>(r: Region, table: seq<T>, first: nat, n: nat, x: T, j: nat)
    requires r.WellFormed() && |table| == r.total && j < |table|
    ensures MirrorRun(r, table, first, n, x)[j] == if j in RunHits(r, first, n) then x else table[j]
  {
  }

  lemma {:induction false} FitsGivesSameHits(r: Region, first: nat, n: nat)
    requires r.WellFormed() && n > 0 && RunFits(r, first, n)
    ensures Hits(r, first, n) == RunHits(r, first, n)
  {
    HitsSize(r, first, n);
    if r.Contains(first) {
      var i := r.Index(first);
      assert Hits(r, first, n) <= Window(i, n);
      SubsetOfSameSize(Hits(r, first, n), Window(i, n));
      var p: nat :| first <= p < first + n && r.Contains(p) && r.Index(p) == i + n - 1;
      assert r.Index(p) < r.total;
    } else {
      assert Hits(r, first, n) == {};
    }
  }

  lemma {:induction false} SameHitsGiveFits(r: Region, first: nat, n: nat)
    requires r.WellFormed() && n > 0 && Hits(r, first, n) == RunHits(r, first, n)
    ensures RunFits(r, first, n)
  {
    HitsSize(r, first, n);
    forall p | first <= p < first + n && r.Contains(p) ensures r.Index(p) in Hits(r, first, n) {
    }
    if RunHits(r, first, n) != {} {
      assert AllIn(r, first, n);
    }
  }

  predicate SameMirror(r: Region, table: seq<bool>, first: nat, n: nat) {
    MirrorRun(r, table, first, n, true) == MirrorEach(r, table, first, n, true)
  }

  lemma {:induction false} FittingRunIsEach<T>(r: Region, table: seq<T>, first: nat, n: nat, x: T)
    requires r.WellFormed() && |table| == r.total && n > 0 && RunFits(r, first, n)
    ensures MirrorRun(r, table, first, n, x) == MirrorEach(r, table, first, n, x)
  {
    FitsGivesSameHits(r, first, n);
    forall j | 0 <= j < |table|
      ensures MirrorRun(r, table, first, n, x)[j] == MirrorEach(r, table, first, n, x)[j]
    {
      EachIsHits(r, table, first, n, x, j);
      RunIsRunHits(r, table, first, n, x, j);
    }
  }

  lemma {:induction false} HitsInTable(r: Region, first: nat, n: nat)
    requires r.WellFormed()
    ensures forall j :: j in Hits(r, first, n) || j in RunHits(r, first, n) ==> j < r.total
  {
  }

  /** On a table of falses the two writes show which entries they hit. */
  lemma {:induction false} SameOnBlankFits(r: Region, first: nat, n: nat, blank: seq<bool>)
    requires r.WellFormed() && n > 0 && blank == seq(r.total, _ => false)
    requires SameMirror(r, blank, first, n)
    ensures RunFits(r, first, n)
  {
    hide Hits, RunHits, MirrorRun, MirrorEach, RunFits;
    forall j: nat | j < r.total ensures j in Hits(r, first, n) <==> j in RunHits(r, first, n) {
      EachIsHits(r, blank, first, n, true, j);
      RunIsRunHits(r, blank, first, n, true, j);
    }
    HitsInTable(r, first, n);
    assert Hits(r, first, n) == RunHits(r, first, n);
    SameHitsGiveFits(r, first, n);
  }

  /** A batched run writes the flat table exactly as n single `set`s do, for every table content,
      if and only if the run fits. */
  lemma {:induction false} RunIsEachIff(r: Region, first: nat, n: nat)
    requires r.WellFormed() && n > 0
    ensures (forall table: seq<bool> :: |table| == r.total ==> SameMirror(r, table, first, n)) <==> RunFits(r, first, n)
  {
    hide RunFits, MirrorRun, MirrorEach;
    if RunFits(r, first, n) {
      forall table: seq<bool> | |table| == r.total ensures SameMirror(r, table, first, n) {
        FittingRunIsEach(r, table, first, n, true);
      }
    } else {
      var blank := seq(r.total, _ => false);
      if SameMirror(r, blank, first, n) {
        SameOnBlankFits(r, first, n, blank);
      }
      assert |blank| == r.total && !SameMirror(r, blank, first, n);
    }
  }

  /** With no external pages, runs that fit are those wholly inside or wholly outside the arena. */
  lemma {:induction false} FitsIffNotStraddling(r: Region, first: nat, n: nat)
    requires r.WellFormed() && r.external == map[] && n > 0
    ensures RunFits(r, first, n) <==>
            || (r.base <= first && first + n <= r.base + r.contig)
            || first + n <= r.base || r.base + r.contig <= first || r.contig == 0
  {
    if r.base <= first && first + n <= r.base + r.contig {
      assert r.Contains(first);
    } else if r.InArena(first) {
      assert r.Contains(first) && !r.Contains(r.base + r.contig);
    } else if r.contig > 0 && first < r.base < first + n {
      assert r.Contains(r.base);
    }
  }

  /** A run that begins in the arena and ends behind it.  It is dropped as a whole exactly when it would pass the
      end of the table; otherwise its end is written into the entries kept for external pages. */
  lemma {:induction false} StraddlingRun<T>(r: Region, table: seq<T>, first: nat, n: nat, x: T)
    requires r.WellFormed() && |table| == r.total && r.InArena(first) && r.base + r.contig < first + n
    ensures first - r.base + n > r.total ==> MirrorRun(r, table, first, n, x) == table
    ensures first - r.base + n <= r.total ==> MirrorRun(r, table, first, n, x)[r.contig] == x
    ensures x !in table ==> (MirrorRun(r, table, first, n, x) == table <==> first - r.base + n > r.total)
    ensures MirrorEach(r, table, first, n, x)[first - r.base] == x
  {
    assert r.Contains(first) && r.Index(first) == first - r.base;
    EachIsHits(r, table, first, n, x, first - r.base);
    if first - r.base + n <= r.total {
      assert MirrorRun(r, table, first, n, x) == Fill(table, first - r.base, n, x);
      assert x !in table ==> table[r.contig] != x;
    }
  }

  /** An external page outside the run whose entry the run reaches gets the span of the run; single sets leave it. */
  lemma {:induction false} StraddlingRunHitsExternal<T>(r: Region, table: seq<T>, first: nat, n: nat, x: T, p: nat)
    requires r.WellFormed() && |table| == r.total && r.InArena(first)
    requires p in r.external && !(first <= p < first + n) && r.external[p] < first - r.base + n <= r.total
    ensures MirrorRun(r, table, first, n, x)[r.external[p]] == x
    ensures MirrorEach(r, table, first, n, x)[r.external[p]] == table[r.external[p]]
    ensures !RunFits(r, first, n)
  {
    assert r.Contains(first) && r.Index(first) == first - r.base && r.Contains(p);
    EachIsHits(r, table, first, n, x, r.external[p]);
    if q :| first <= q < first + n && r.Contains(q) && r.Index(q) == r.external[p] {
      IndexInjective(r, q, p);
    }
    RunIsRunHits(r, table, first, n, x, r.external[p]);
    if RunFits(r, first, n) {
      FitsGivesSameHits(r, first, n);
    }
  }

  /** Such a run at an input: two pages from the second page of a two-page arena with two external entries, the
      first of them in use by page 100. */
  lemma {:induction false} StraddlingExample()
    ensures var r := Region(16, 2, 4, map[100 := 2]); var blank := [false, false, false, false];
            && r.WellFormed() && r.Index(100) == 2
            && MirrorRun(r, blank, 17, 2, true) == [false, true, true, false]
            && MirrorEach(r, blank, 17, 2, true) == [false, true, false, false]
  {
    var r := Region(16, 2, 4, map[100 := 2]);
    var blank := [false, false, false, false];
    assert MirrorEach(r, blank, 17, 0, true) == blank;
    assert MirrorEach(r, blank, 17, 1, true) == [false, true, false, false];
  }

  // -------------------------------------------------------------- agreement

  /** The flat table agrees with the tree on every page of the region, and tags with the spans. */
  ghost predicate Mirrors(r: Region, v: View, flat: seq<SpanPtr>, tags: seq<bv16>) {
    && |flat| == |tags| == r.total
    && forall p :: r.Contains(p) ==>
         && r.Index(p) < r.total
         && flat[r.Index(p)] == Lookup(v, p) && tags[r.Index(p)] == PageTag(Lookup(v, p))
  }

  lemma {:induction false} OneKeepsMirror(r: Region, v: View, flat: seq<SpanPtr>, tags: seq<bv16>,
                                          page: nat, span: SpanPtr)
    requires r.WellFormed() && Mirrors(r, v, flat, tags)
    ensures Mirrors(r, Put(v, page, span), MirrorOne(r, flat, page, span), MirrorOne(r, tags, page, PageTag(span)))
  {
    hide PageTag;
    var v', flat', tags' := Put(v, page, span), MirrorOne(r, flat, page, span), MirrorOne(r, tags, page, PageTag(span));
    forall p | r.Contains(p)
      ensures r.Index(p) < r.total
      ensures flat'[r.Index(p)] == Lookup(v', p) && tags'[r.Index(p)] == PageTag(Lookup(v', p))
    {
      if p != page && r.Contains(page) {
        IndexInjective(r, p, page);
      }
    }
  }

  lemma {:induction false} EachKeepsMirror(r: Region, v: View, flat: seq<SpanPtr>, tags: seq<bv16>,
                                           first: nat, n: nat, span: SpanPtr)
    requires r.WellFormed() && Mirrors(r, v, flat, tags)
    ensures Mirrors(r, PutRange(v, first, n, span), MirrorEach(r, flat, first, n, span),
                    MirrorEach(r, tags, first, n, PageTag(span)))
  {
    hide Mirrors, PageTag;
    if n > 0 {
      EachKeepsMirror(r, v, flat, tags, first, n - 1, span);
      OneKeepsMirror(r, PutRange(v, first, n - 1, span), MirrorEach(r, flat, first, n - 1, span),
                     MirrorEach(r, tags, first, n - 1, PageTag(span)), first + n - 1, span);
    }
  }

  lemma {:induction false} RunKeepsMirror(r: Region, v: View, flat: seq<SpanPtr>, tags: seq<bv16>,
                                          first: nat, n: nat, span: SpanPtr)
    requires r.WellFormed() && Mirrors(r, v, flat, tags) && (n > 0 ==> RunFits(r, first, n))
    ensures n > 0 ==> Mirrors(r, PutRange(v, first, n, span), MirrorRun(r, flat, first, n, span),
                              MirrorRun(r, tags, first, n, PageTag(span)))
  {
    assert |flat| == |tags| == r.total;
    hide Mirrors, PageTag, RunFits;
    if n > 0 {
      EachKeepsMirror(r, v, flat, tags, first, n, span);
      FittingRunIsEach(r, flat, first, n, span);
      FittingRunIsEach(r, tags, first, n, PageTag(span));
    }
  }

  /** The table after one operation: a single `set`, or a run. */
  function Mirrored<T>(r: Region, table: seq<T>, single: bool, first: nat, n: nat, x: T): seq<T> {
    if single then MirrorOne(r, table, first, x) else if n == 0 then table else MirrorRun(r, table, first, n, x)
  }

  lemma {:induction false} OneIsRange(v: View, first: nat, span: SpanPtr)
    ensures PutRange(v, first, 1, span) == Put(v, first, span)
  {
    assert PutRange(v, first, 0, span) == v;
  }

  lemma {:induction false} OpKeepsMirror(r: Region, v: View, flat: seq<SpanPtr>, tags: seq<bv16>,
                                         single: bool, first: nat, n: nat, span: SpanPtr)
    requires r.WellFormed() && Mirrors(r, v, flat, tags) && (single ==> n == 1) && (n > 0 ==> RunFits(r, first, n))
    ensures Mirrors(r, PutRange(v, first, n, span), Mirrored(r, flat, single, first, n, span),
                    Mirrored(r, tags, single, first, n, PageTag(span)))
  {
    hide Mirrors, PageTag, RunFits, MirrorOne, MirrorRun;
    if single {
      OneIsRange(v, first, span);
      OneKeepsMirror(r, v, flat, tags, first, span);
    } else {
      RunKeepsMirror(r, v, flat, tags, first, n, span);
    }
  }
}

module PageMap {
  import opened Basics
  import opened Division
  import opened Spans
  import opened PageMapSpec

  /** Entries of one second-level table (kPageMapL2Bits == 16). */
  const L2_SIZE: nat := 65536

  /** One write to the map. */
  datatype Op =
    | Set(addr: nat, span: SpanPtr)
    | SetRange(addr: nat, pages: nat, span: SpanPtr)
    | ClearRange(addr: nat, pages: nat)
  {
    function Count(): nat { if Set? then 1 else pages }
    function Value(): SpanPtr { if ClearRange? then None else span }
    predicate Covers(page: nat, pageSize: nat)
      requires pageSize > 0
    {
      addr / pageSize <= page < addr / pageSize + Count()
    }
  }

  /** The span of the last write that covered the page; none if there was none. */
  function LastWrite(ops: seq<Op>, page: nat, pageSize: nat): SpanPtr
    requires pageSize > 0
  {
    if ops == [] then None
    else
      var last := ops[|ops| - 1];
      if last.Covers(page, pageSize) then last.Value() else LastWrite(ops[..|ops| - 1], page, pageSize)
  }

  /** The map shows the last write to every page. */
  ghost predicate ShowsLast(v: View, ops: seq<Op>, pageSize: nat)
    requires pageSize > 0
  {
    forall page: nat :: Lookup(v, page) == LastWrite(ops, page, pageSize)
  }

  lemma {:induction false} ShowsNext(v: View, ops: seq<Op>, i: nat, pageSize: nat)
    requires pageSize > 0 && i < |ops| && ShowsLast(v, ops[..i], pageSize)
    ensures ShowsLast(PutRange(v, ops[i].addr / pageSize, ops[i].Count(), ops[i].Value()), ops[..i + 1], pageSize)
  {
    var op := ops[i];
    hide PutRange;
    assert ops[..i + 1][..i] == ops[..i];
    forall page: nat
      ensures Lookup(PutRange(v, op.addr / pageSize, op.Count(), op.Value()), page) ==
              LastWrite(ops[..i + 1], page, pageSize)
    {
      PutRangeAt(v, op.addr / pageSize, op.Count(), op.Value(), page);
    }
  }

  /** A page is determined by its first- and second-level index. */
  lemma {:induction false} SplitIsInjective(p: nat, q: nat)
    requires p / L2_SIZE == q / L2_SIZE && p % L2_SIZE == q % L2_SIZE
    ensures p == q
  {
  }

  /** One of the store loops of a batched run. */
  method StoreRun<T>(table: array<T>, i: nat, n: nat, x: T)
    requires i + n <= table.Length
    modifies table
    ensures table[..] == Fill(old(table[..]), i, n, x)
  {
    for k := 0 to n
      invariant table[..] == Fill(old(table[..]), i, k, x)
    {
      table[i + k] := x;
    }
  }

  class PageMap {
    const pageSize: nat
    const level1: array<array?<SpanPtr>>
    const region: Option<Region>
    const flat: array<SpanPtr>
    const tags: array<bv16>
    ghost var view: View
    ghost var tables: set<array<SpanPtr>>

    ghost function Radix(page: nat): SpanPtr
      reads this, level1, tables
      requires page / L2_SIZE < level1.Length
      requires level1[page / L2_SIZE] != null ==>
                 level1[page / L2_SIZE] in tables && level1[page / L2_SIZE].Length == L2_SIZE
    {
      if level1[page / L2_SIZE] == null then None else level1[page / L2_SIZE][page % L2_SIZE]
    }

    /** Second-level tables are complete, owned, and not shared between first-level slots. */
    ghost predicate TablesOk()
      reads this, level1, tables
    {
      && (forall i :: 0 <= i < level1.Length && level1[i] != null ==>
            level1[i] in tables && level1[i].Length == L2_SIZE)
      && (forall i, j :: 0 <= i < j < level1.Length && level1[i] != null ==> level1[i] != level1[j])
      && flat !in tables
      && level1 as object != flat && level1 as object != tags && flat as object != tags
      && (forall t :: t in tables ==> t as object != level1 && t as object != tags)
    }

    ghost predicate Valid()
      reads this, level1, tables
    {
      && pageSize > 0
      && TablesOk()
      && (region.Some? ==> region.value.WellFormed() && flat.Length == tags.Length == region.value.total)
      && (forall page: nat :: page / L2_SIZE < level1.Length ==> Radix(page) == Lookup(view, page))
    }

    constructor (pageSize: nat, l1Size: nat, region: Option<Region>)
      requires pageSize > 0 && (region.Some? ==> region.value.WellFormed())
      ensures Valid() && view == map[] && tables == {} && fresh(level1) && fresh(flat) && fresh(tags)
      ensures this.pageSize == pageSize && level1.Length == l1Size && this.region == region
      ensures region.Some? ==> Mirrors(region.value, view, flat[..], tags[..])
    {
      var total := if region.Some? then region.value.total else 0;
      this.pageSize := pageSize;
      this.level1 := new array?<SpanPtr>[l1Size](_ => null);
      this.region := region;
      this.flat := new SpanPtr[total](_ => None);
      this.tags := new bv16[total](_ => 0);
      view := map[];
      tables := {};
    }

    /** The table of a first-level slot, allocated on first use. */
    method EnsureL2(l1: nat) returns (table: array<SpanPtr>)
      requires Valid() && l1 < level1.Length
      modifies this`tables, level1
      ensures Valid() && table == level1[l1] && view == old(view) && fresh(tables - old(tables))
      ensures forall i :: 0 <= i < level1.Length && old(level1[i]) != null ==> level1[i] == old(level1[i])
    {
      var existing := level1[l1];
      if existing != null {
        return existing;
      }
      table := new SpanPtr[L2_SIZE](_ => None);
      tables := tables + {table};
      level1[l1] := table;
      assert forall page: nat :: page / L2_SIZE < level1.Length ==> Radix(page) == old(Radix(page));
    }

    /** One store into the table of the page's first-level slot. */
    method Store(table: array<SpanPtr>, ghost page: nat, l2: nat, span: SpanPtr)
      requires Valid() && page / L2_SIZE < level1.Length
      requires level1[page / L2_SIZE] == table && l2 == page % L2_SIZE
      modifies this`view, table
      ensures Valid() && view == Put(old(view), page, span)
    {
      table[l2] := span;
      view := Put(view, page, span);
      forall q: nat | q / L2_SIZE < level1.Length ensures Radix(q) == Lookup(view, q) {
        if q / L2_SIZE == page / L2_SIZE && q % L2_SIZE == l2 {
          SplitIsInjective(page, q);
        }
        assert q != page ==> Radix(q) == old(Radix(q));
      }
    }

    method Get(addr: nat) returns (span: SpanPtr)
      requires Valid() && addr / pageSize / L2_SIZE < level1.Length
      ensures span == Lookup(view, addr / pageSize)
    {
      var page := addr / pageSize;
      var table := level1[page / L2_SIZE];
      if table == null {
        assert Radix(page) == None;
        return None;
      }
      assert Radix(page) == table[page % L2_SIZE];
      span := table[page % L2_SIZE];
    }

    method Set(addr: nat, span: SpanPtr)
      requires Valid() && addr / pageSize / L2_SIZE < level1.Length
      modifies this, level1, tables, flat, tags
      ensures Valid() && fresh(tables - old(tables))
      ensures view == Put(old(view), addr / pageSize, span)
      ensures region.Some? ==>
                && flat[..] == MirrorOne(region.value, old(flat[..]), addr / pageSize, span)
                && tags[..] == MirrorOne(region.value, old(tags[..]), addr / pageSize, PageTag(span))
    {
      var page := addr / pageSize;
      var table := EnsureL2(page / L2_SIZE);
      Store(table, page, page % L2_SIZE, span);
      if region.Some? && region.value.Contains(page) {
        var idx := region.value.Index(page);
        if idx < region.value.total {
          flat[idx] := span;
          tags[idx] := PageTag(span);
        }
      }
    }

    /** Fills the entries of one second-level table from l2 to l2End. */
    method FillTable(table: array<SpanPtr>, ghost page: nat, l2: nat, l2End: nat, span: SpanPtr)
      requires Valid() && page / L2_SIZE < level1.Length
      requires level1[page / L2_SIZE] == table && l2 == page % L2_SIZE <= l2End < L2_SIZE
      modifies this`view, table
      ensures Valid() && view == PutRange(old(view), page, l2End - l2 + 1, span)
    {
      var s := l2;
      while s <= l2End
        invariant l2 <= s <= l2End + 1
        invariant Valid() && view == PutRange(old(view), page, s - l2, span)
      {
        Store(table, page + (s - l2), s, span);
        s := s + 1;
      }
    }

    /** The table-by-table walk of a run. */
    method WalkTables(firstPage: nat, pages: nat, span: SpanPtr)
      requires Valid() && pages > 0 && (firstPage + pages - 1) / L2_SIZE < level1.Length
      modifies this, level1, tables
      ensures Valid() && fresh(tables - old(tables)) && view == PutRange(old(view), firstPage, pages, span)
    {
      var lastPage := firstPage + pages - 1;
      var page := firstPage;
      while page <= lastPage
        invariant firstPage <= page <= lastPage + 1
        invariant Valid() && fresh(tables - old(tables))
        invariant view == PutRange(old(view), firstPage, page - firstPage, span)
        decreases lastPage + 1 - page
      {
        var l2 := page % L2_SIZE;
        var table := EnsureL2(page / L2_SIZE);
        var l2End := if l2 + (lastPage - page) < L2_SIZE - 1 then l2 + (lastPage - page) else L2_SIZE - 1;
        FillTable(table, page, l2, l2End, span);
        PutRangeJoins(old(view), firstPage, page - firstPage, l2End - l2 + 1, span);
        page := page + (l2End - l2) + 1;
      }
    }

    /** The batched mirror of a run into the flat table and the tag table. */
    method MirrorRange(firstPage: nat, pages: nat, span: SpanPtr)
      requires Valid()
      modifies flat, tags
      ensures Valid()
      ensures region.Some? ==>
                && flat[..] == MirrorRun(region.value, old(flat[..]), firstPage, pages, span)
                && tags[..] == MirrorRun(region.value, old(tags[..]), firstPage, pages, PageTag(span))
    {
      if region.Some? && region.value.Contains(firstPage) {
        var idx := region.value.Index(firstPage);
        if idx + pages <= region.value.total {
          if span.Some? {
            StoreRun(flat, idx, pages, span);
            StoreRun(tags, idx, pages, PageTag(span));
          } else {
            StoreRun(tags, idx, pages, 0);
            StoreRun(flat, idx, pages, None);
          }
        }
      }
    }

    method SetRange(addr: nat, pages: nat, span: SpanPtr)
      requires Valid() && (pages > 0 ==> (addr / pageSize + pages - 1) / L2_SIZE < level1.Length)
      modifies this, level1, tables, flat, tags
      ensures Valid() && fresh(tables - old(tables))
      ensures view == PutRange(old(view), addr / pageSize, pages, span)
      ensures pages == 0 ==> flat[..] == old(flat[..]) && tags[..] == old(tags[..])
      ensures pages > 0 && region.Some? ==>
                && flat[..] == MirrorRun(region.value, old(flat[..]), addr / pageSize, pages, span)
                && tags[..] == MirrorRun(region.value, old(tags[..]), addr / pageSize, pages, PageTag(span))
    {
      if pages == 0 {
        return;
      }
      WalkTables(addr / pageSize, pages, span);
      MirrorRange(addr / pageSize, pages, span);
    }

    method ClearRange(addr: nat, pages: nat)
      requires Valid() && (pages > 0 ==> (addr / pageSize + pages - 1) / L2_SIZE < level1.Length)
      modifies this, level1, tables, flat, tags
      ensures Valid() && fresh(tables - old(tables))
      ensures view == PutRange(old(view), addr / pageSize, pages, None)
      ensures pages == 0 ==> flat[..] == old(flat[..]) && tags[..] == old(tags[..])
      ensures pages > 0 && region.Some? ==>
                && flat[..] == MirrorRun(region.value, old(flat[..]), addr / pageSize, pages, None)
                && tags[..] == MirrorRun(region.value, old(tags[..]), addr / pageSize, pages, PageTag(None))
    {
      SetRange(addr, pages, None);
    }

    /** The write stays inside the address space the tree covers. */
    ghost predicate InSpace(op: Op)
      requires pageSize > 0
    {
      op.Count() > 0 ==> (op.addr / pageSize + op.Count() - 1) / L2_SIZE < level1.Length
    }

    /** The write's pages all mirror together (single writes always do). */
    ghost predicate Fits(op: Op)
      requires pageSize > 0
    {
      region.Some? && op.Count() > 0 ==> RunFits(region.value, op.addr / pageSize, op.Count())
    }

    lemma {:induction false} ValidParts()
      requires Valid()
      ensures pageSize > 0
      ensures region.Some? ==> region.value.WellFormed() && flat.Length == tags.Length == region.value.total
    {
    }

    /** One operation, and what it leaves in the tables. */
    method Perform(op: Op)
      requires Valid() && InSpace(op)
      modifies this, level1, tables, flat, tags
      ensures Valid() && fresh(tables - old(tables))
      ensures view == PutRange(old(view), op.addr / pageSize, op.Count(), op.Value())
      ensures region.Some? ==>
                var first := op.addr / pageSize;
                && flat[..] == Mirrored(region.value, old(flat[..]), op.Set?, first, op.Count(), op.Value())
                && tags[..] == Mirrored(region.value, old(tags[..]), op.Set?, first, op.Count(), PageTag(op.Value()))
    {
      ValidParts();
      hide Valid, MirrorOne, MirrorRun, PageTag, Put;
      OneIsRange(view, op.addr / pageSize, op.Value());
      match op
      case Set(addr, span) => Set(addr, span);
      case SetRange(addr, pages, span) => SetRange(addr, pages, span);
      case ClearRange(addr, pages) => ClearRange(addr, pages);
    }

    method Apply(op: Op)
      requires Valid() && InSpace(op)
      modifies this, level1, tables, flat, tags
      ensures Valid() && fresh(tables - old(tables))
      ensures view == PutRange(old(view), op.addr / pageSize, op.Count(), op.Value())
      ensures region.Some? && Fits(op) && old(Mirrors(region.value, view, flat[..], tags[..])) ==>
                Mirrors(region.value, view, flat[..], tags[..])
    {
      ghost var v, f, t := view, flat[..], tags[..];
      ValidParts();
      hide Valid, InSpace, Mirrors, Mirrored, RunFits, PageTag, PutRange;
      Perform(op);
      if region.Some? && Fits(op) && Mirrors(region.value, v, f, t) {
        OpKeepsMirror(region.value, v, f, t, op.Set?, op.addr / pageSize, op.Count(), op.Value());
      }
    }

    /** Any sequence of writes on a fresh map: every page reads back the last span written to it,
        and when the ranges fit the region, the flat table and the tags agree with the tree. */
    method Replay(ops: seq<Op>)
      requires Valid() && view == map[]
      requires forall op :: op in ops ==> InSpace(op)
      requires region.Some? ==> Mirrors(region.value, view, flat[..], tags[..])
      modifies this, level1, tables, flat, tags
      ensures Valid()
      ensures ShowsLast(view, ops, pageSize)
      ensures region.Some? && (forall op :: op in ops ==> Fits(op)) ==> Mirrors(region.value, view, flat[..], tags[..])
    {
      ValidParts();
      assert ShowsLast(view, ops[..0], pageSize);
      hide Valid, InSpace, Mirrors, PutRange, RunFits, ShowsLast;
      for i := 0 to |ops|
        invariant Valid() && fresh(tables - old(tables))
        invariant ShowsLast(view, ops[..i], pageSize)
        invariant region.Some? && (forall op :: op in ops ==> Fits(op)) ==>
                    Mirrors(region.value, view, flat[..], tags[..])
      {
        ShowsNext(view, ops, i, pageSize);
        Apply(ops[i]);
      }
      assert ops[..|ops|] == ops;
    }
  }

  /** Every address of a page has the same page index, so `Get` ignores the offset. */
  lemma {:induction false} OffsetIgnored(page: nat, offset: nat, pageSize: nat)
    requires offset < pageSize
    ensures (page * pageSize + offset) / pageSize == page
  {
    var addr := page * pageSize + offset;
    QuotientIsUnique(page, offset, addr / pageSize, addr % pageSize, pageSize);
  }
}
