/** The store for compressed blobs (src/compress/compress_store.h), one shard, under its lock.
    Memory is counted in granules of 8 bytes, the size of a free-list node: a freed slot
    carries its node in its own first granule. */
module StoreRegion {
  import opened Basics

  const CAPACITY: nat := 16 * 1024 * 1024 / 8

  /** First granule behind the region header. */
  const DATA_START: nat := 6

  datatype Granule = Node(size: nat, next: nat) | Data(x: nat)

  /** `offset` is the bump pointer, `live` the granules in use, `freeHead` the first free slot (0: none). */
  datatype Region = Region(id: nat, mem: seq<Granule>, offset: nat, live: nat, freeHead: nat)

  /** What a slot holds: its size in granules and the data stored in it. */
  datatype Blob = Blob(alloc: nat, data: seq<nat>)

  datatype Extent = Extent(off: nat, len: nat) {
    predicate Apart(e: Extent) { off + len <= e.off || e.off + e.len <= off }
    predicate Within(e: Extent) { e.off <= off && off + len <= e.off + e.len }
    predicate Below(offset: nat) { DATA_START <= off && off + len <= offset && len > 0 }
  }

  type Blobs = map<nat, Blob>

  function With(blobs: Blobs, o: nat, b: Blob): Blobs { blobs[o := b] }

  function SlotOf(blobs: Blobs, o: nat): Extent
    requires o in blobs
  {
    Extent(o, blobs[o].alloc)
  }

  // -------------------------------------------------------------- granules in use

  ghost function Total(blobs: Blobs): nat {
    if blobs == map[] then 0
    else
      var o :| o in blobs;
      blobs[o].alloc + Total(blobs - {o})
  }

  lemma {:induction false} TotalWithout(blobs: Blobs, o: nat)
    requires o in blobs
    ensures Total(blobs) == blobs[o].alloc + Total(blobs - {o})
    decreases |blobs|
  {
    var c :| c in blobs && Total(blobs) == blobs[c].alloc + Total(blobs - {c});
    if c != o {
      TotalWithout(blobs - {c}, o);
      TotalWithout(blobs - {o}, c);
      assert blobs - {c} - {o} == blobs - {o} - {c};
    }
  }

  lemma {:induction false} TotalWith(blobs: Blobs, o: nat, b: Blob)
    requires o !in blobs
    ensures Total(blobs[o := b]) == Total(blobs) + b.alloc
  {
    TotalWithout(blobs[o := b], o);
    assert blobs[o := b] - {o} == blobs;
  }

  // -------------------------------------------------------------- a well-formed region

  function Next(free: seq<Extent>, i: nat): nat {
    if i < |free| then free[i].off else 0
  }

  /** The in-band list through the freed slots is `free`. */
  predicate Listed(mem: seq<Granule>, head: nat, free: seq<Extent>) {
    && head == Next(free, 0)
    && forall i :: 0 <= i < |free| ==>
         free[i].off < |mem| && mem[free[i].off] == Node(free[i].len, Next(free, i + 1))
  }

  /** Live and free slots lie below the bump pointer and do not overlap. */
  ghost predicate Tiled(offset: nat, blobs: Blobs, free: seq<Extent>) {
    && (forall o :: o in blobs ==> SlotOf(blobs, o).Below(offset))
    && (forall i :: 0 <= i < |free| ==> free[i].Below(offset))
    && (forall o, p :: o in blobs && p in blobs && o != p ==> SlotOf(blobs, o).Apart(SlotOf(blobs, p)))
    && (forall o, i :: o in blobs && 0 <= i < |free| ==> SlotOf(blobs, o).Apart(free[i]))
    && (forall i, j :: 0 <= i < j < |free| ==> free[i].Apart(free[j]))
  }

  /** Every blob's data is in its slot. */
  ghost predicate Intact(mem: seq<Granule>, blobs: Blobs) {
    forall o :: o in blobs ==>
      && |blobs[o].data| <= blobs[o].alloc && o + blobs[o].alloc <= |mem|
      && forall k :: 0 <= k < |blobs[o].data| ==> mem[o + k] == Data(blobs[o].data[k])
  }

  ghost predicate RegionOk(r: Region, blobs: Blobs, free: seq<Extent>) {
    && |r.mem| == CAPACITY && DATA_START <= r.offset <= CAPACITY
    && Listed(r.mem, r.freeHead, free)
    && Tiled(r.offset, blobs, free)
    && Intact(r.mem, blobs)
    && r.live == Total(blobs)
  }

  /** A write into a free slot, or above the bump pointer, leaves every blob intact. */
  lemma {:induction false} WriteKeepsIntact(mem: seq<Granule>, blobs: Blobs, at: nat, g: Granule)
    requires Intact(mem, blobs) && at < |mem|
    requires forall o :: o in blobs ==> SlotOf(blobs, o).Apart(Extent(at, 1))
    ensures Intact(mem[at := g], blobs)
  {
  }

  // -------------------------------------------------------------- taking a slot off the free list

  /** Redirects the link that leads to slot i of the list: the head, or the node before it. */
  function Redirect(r: Region, prev: nat, to: nat): Region
    requires prev < |r.mem| && (prev != 0 ==> r.mem[prev].Node?)
  {
    if prev == 0 then r.(freeHead := to)
    else r.(mem := r.mem[prev := Node(r.mem[prev].size, to)])
  }

  /** Offset of the node before slot i; 0 stands for the head. */
  function Before(free: seq<Extent>, i: nat): nat {
    if 0 < i <= |free| then free[i - 1].off else 0
  }

  lemma {:induction false} FreeApart(offset: nat, blobs: Blobs, free: seq<Extent>)
    requires Tiled(offset, blobs, free)
    ensures forall i, j :: 0 <= i < j < |free| ==> free[i].off != free[j].off
    ensures forall i :: 0 <= i < |free| ==> free[i].off > 0
  {
  }

  predicate DistinctOffsets(free: seq<Extent>) {
    && (forall i, j :: 0 <= i < j < |free| ==> free[i].off != free[j].off)
    && (forall i :: 0 <= i < |free| ==> free[i].off > 0)
  }

  /** The list without its i-th entry. */
  lemma {:induction false} RedirectUnlinks(r: Region, free: seq<Extent>, i: nat)
    requires Listed(r.mem, r.freeHead, free) && DistinctOffsets(free) && i < |free|
    ensures var r' := Redirect(r, Before(free, i), Next(free, i + 1));
            Listed(r'.mem, r'.freeHead, Remove(free, i))
  {
    hide Remove;
    var r' := Redirect(r, Before(free, i), Next(free, i + 1));
    var rest := Remove(free, i);
    forall k | 0 <= k < |rest|
      ensures rest[k].off < |r'.mem| && r'.mem[rest[k].off] == Node(rest[k].len, Next(rest, k + 1))
    {
      var j := if k < i then k else k + 1;
      assert rest[k] == free[j];
    }
  }

  /** Slot i shrunk to its upper part `tail`, whose node has been written. */
  lemma {:induction false} RedirectReplaces(r: Region, free: seq<Extent>, i: nat, tail: Extent)
    requires Listed(r.mem, r.freeHead, free) && DistinctOffsets(free) && i < |free|
    requires 0 < tail.off < |r.mem| && forall k :: 0 <= k < |free| ==> free[k].off != tail.off
    ensures var m := r.(mem := r.mem[tail.off := Node(tail.len, Next(free, i + 1))]);
            var r' := Redirect(m, Before(free, i), tail.off);
            Listed(r'.mem, r'.freeHead, free[i := tail])
  {
    var m := r.(mem := r.mem[tail.off := Node(tail.len, Next(free, i + 1))]);
    var r' := Redirect(m, Before(free, i), tail.off);
    var rest := free[i := tail];
    forall k | 0 <= k < |rest|
      ensures rest[k].off < |r'.mem| && r'.mem[rest[k].off] == Node(rest[k].len, Next(rest, k + 1))
    {
      assert k == i || rest[k] == free[k];
    }
  }

  lemma {:induction false} TiledWithout(offset: nat, blobs: Blobs, free: seq<Extent>, i: nat)
    requires Tiled(offset, blobs, free) && i < |free|
    ensures Tiled(offset, blobs, Remove(free, i))
    ensures forall k :: 0 <= k < |free| - 1 ==> Remove(free, i)[k].Apart(free[i])
  {
  }

  lemma {:induction false} TiledShrunk(offset: nat, blobs: Blobs, free: seq<Extent>, i: nat, tail: Extent)
    requires Tiled(offset, blobs, free) && i < |free| && tail.Within(free[i]) && tail.len > 0
    ensures Tiled(offset, blobs, free[i := tail])
  {
  }

  /** A slot apart from all others becomes a blob's. */
  lemma {:induction false} TiledWithBlob(offset: nat, blobs: Blobs, free: seq<Extent>, o: nat, b: Blob)
    requires Tiled(offset, blobs, free) && Extent(o, b.alloc).Below(offset)
    requires forall i :: 0 <= i < |free| ==> free[i].Apart(Extent(o, b.alloc))
    requires forall p :: p in blobs ==> SlotOf(blobs, p).Apart(Extent(o, b.alloc))
    ensures o !in blobs && Tiled(offset, blobs[o := b], free)
  {
  }

  /** The link before slot i can be redirected without touching a blob. */
  lemma {:induction false} RedirectIntact(r: Region, blobs: Blobs, free: seq<Extent>, i: nat, to: nat)
    requires RegionOk(r, blobs, free) && i < |free|
    ensures Before(free, i) < |r.mem| && (Before(free, i) != 0 ==> r.mem[Before(free, i)].Node?)
    ensures var r' := Redirect(r, Before(free, i), to);
            Intact(r'.mem, blobs) && |r'.mem| == |r.mem|
  {
    hide Total;
    if i > 0 {
      assert forall o :: o in blobs ==> SlotOf(blobs, o).Apart(free[i - 1]);
      WriteKeepsIntact(r.mem, blobs, free[i - 1].off, Node(free[i - 1].len, to));
    }
  }

  lemma {:induction false} IntactWithEmpty(mem: seq<Granule>, blobs: Blobs, o: nat, alloc: nat)
    requires Intact(mem, blobs) && o + alloc <= |mem|
    ensures Intact(mem, blobs[o := Blob(alloc, [])])
  {
  }

  /** The slots left on the list are apart from the one taken. */
  lemma {:induction false} SlotTaken(r: Region, blobs: Blobs, rest: seq<Extent>, o: nat, alloc: nat)
    requires |r.mem| == CAPACITY && DATA_START <= r.offset <= CAPACITY && r.live == Total(blobs)
    requires Listed(r.mem, r.freeHead, rest) && Tiled(r.offset, blobs, rest) && Intact(r.mem, blobs)
    requires Extent(o, alloc).Below(r.offset)
    requires forall k :: 0 <= k < |rest| ==> rest[k].Apart(Extent(o, alloc))
    requires forall p :: p in blobs ==> SlotOf(blobs, p).Apart(Extent(o, alloc))
    ensures o !in blobs && RegionOk(r.(live := r.live + alloc), blobs[o := Blob(alloc, [])], rest)
  {
    TiledWithBlob(r.offset, blobs, rest, o, Blob(alloc, []));
    TotalWith(blobs, o, Blob(alloc, []));
    IntactWithEmpty(r.mem, blobs, o, alloc);
    hide Listed, Tiled, Total, Intact;
  }

  lemma {:induction false} TakeWhole(r: Region, blobs: Blobs, free: seq<Extent>, i: nat)
    requires RegionOk(r, blobs, free) && i < |free|
    ensures Before(free, i) < |r.mem| && (Before(free, i) != 0 ==> r.mem[Before(free, i)].Node?)
    ensures var e := free[i];
            var r' := Redirect(r, Before(free, i), Next(free, i + 1));
            e.off !in blobs && RegionOk(r'.(live := r'.live + e.len), blobs[e.off := Blob(e.len, [])], Remove(free, i))
  {
    FreeApart(r.offset, blobs, free);
    RedirectIntact(r, blobs, free, i, Next(free, i + 1));
    RedirectUnlinks(r, free, i);
    TiledWithout(r.offset, blobs, free, i);
    var r' := Redirect(r, Before(free, i), Next(free, i + 1));
    assert free[i].Below(r.offset) && forall p :: p in blobs ==> SlotOf(blobs, p).Apart(free[i]);
    hide Listed, Tiled, Total, Intact;
    SlotTaken(r', blobs, Remove(free, i), free[i].off, free[i].len);
  }

  function TailOf(e: Extent, req: nat): Extent
    requires req < e.len
  {
    Extent(e.off + req, e.len - req)
  }

  /** Writing the node of the upper part of slot i touches no blob and no other node. */
  lemma {:induction false} TailNode(r: Region, blobs: Blobs, free: seq<Extent>, i: nat, req: nat)
    requires RegionOk(r, blobs, free) && i < |free| && 0 < req < free[i].len
    ensures var tail := TailOf(free[i], req);
            && 0 < tail.off < |r.mem| && (forall k :: 0 <= k < |free| ==> free[k].off != tail.off)
            && Intact(r.mem[tail.off := Node(tail.len, Next(free, i + 1))], blobs)
  {
    hide Total, Listed;
    var tail := TailOf(free[i], req);
    assert forall o :: o in blobs ==> SlotOf(blobs, o).Apart(free[i]);
    WriteKeepsIntact(r.mem, blobs, tail.off, Node(tail.len, Next(free, i + 1)));
  }

  lemma {:induction false} PartIntact(r: Region, blobs: Blobs, free: seq<Extent>, i: nat, m: Region, to: nat)
    requires RegionOk(r, blobs, free) && i < |free| && Intact(m.mem, blobs) && |m.mem| == |r.mem|
    requires Before(free, i) != 0 ==> m.mem[Before(free, i)] == r.mem[Before(free, i)]
    ensures Before(free, i) < |m.mem| && (Before(free, i) != 0 ==> m.mem[Before(free, i)].Node?)
    ensures Intact(Redirect(m, Before(free, i), to).mem, blobs)
  {
    hide Total;
    if i > 0 {
      assert forall o :: o in blobs ==> SlotOf(blobs, o).Apart(free[i - 1]);
      WriteKeepsIntact(m.mem, blobs, free[i - 1].off, Node(free[i - 1].len, to));
    }
  }

  lemma {:induction false} PartApart(offset: nat, blobs: Blobs, free: seq<Extent>, i: nat, req: nat)
    requires Tiled(offset, blobs, free) && i < |free| && 0 < req < free[i].len
    ensures var part := Extent(free[i].off, req); var rest := free[i := TailOf(free[i], req)];
            && part.Below(offset)
            && (forall k :: 0 <= k < |rest| ==> rest[k].Apart(part))
            && (forall p :: p in blobs ==> SlotOf(blobs, p).Apart(part))
  {
    var rest := free[i := TailOf(free[i], req)];
    assert forall k :: 0 <= k < |rest| ==> k == i || rest[k] == free[k];
  }

  lemma {:induction false} TakePart(r: Region, blobs: Blobs, free: seq<Extent>, i: nat, req: nat)
    requires RegionOk(r, blobs, free) && i < |free| && 0 < req < free[i].len
    ensures var tail := TailOf(free[i], req);
            && tail.off < |r.mem|
            && var m := r.(mem := r.mem[tail.off := Node(tail.len, Next(free, i + 1))]);
            && Before(free, i) < |m.mem| && (Before(free, i) != 0 ==> m.mem[Before(free, i)].Node?)
            && var r' := Redirect(m, Before(free, i), tail.off);
            free[i].off !in blobs &&
            RegionOk(r'.(live := r'.live + req), blobs[free[i].off := Blob(req, [])], free[i := tail])
  {
    var tail := TailOf(free[i], req);
    FreeApart(r.offset, blobs, free);
    TailNode(r, blobs, free, i, req);
    RedirectReplaces(r, free, i, tail);
    TiledShrunk(r.offset, blobs, free, i, tail);
    var m := r.(mem := r.mem[tail.off := Node(tail.len, Next(free, i + 1))]);
    var r' := Redirect(m, Before(free, i), tail.off);
    PartIntact(r, blobs, free, i, m, tail.off);
    PartApart(r.offset, blobs, free, i, req);
    hide Listed, Tiled, Total, Intact;
    SlotTaken(r', blobs, free[i := tail], free[i].off, req);
  }

  lemma {:induction false} NodeAt(r: Region, blobs: Blobs, free: seq<Extent>, i: nat)
    requires RegionOk(r, blobs, free) && i < |free|
    ensures 0 < free[i].off < |r.mem| && r.mem[free[i].off] == Node(free[i].len, Next(free, i + 1))
  {
    hide Total, Intact;
  }

  lemma {:induction false} HeadIs(r: Region, blobs: Blobs, free: seq<Extent>)
    requires RegionOk(r, blobs, free)
    ensures r.freeHead == Next(free, 0)
  {
  }

  /** What first fit leaves of the free list. */
  function AllocOf(free: seq<Extent>, i: nat, req: nat): (nat, seq<Extent>)
    requires i < |free| && req <= free[i].len
  {
    if free[i].len > req then (req, free[i := TailOf(free[i], req)]) else (free[i].len, Remove(free, i))
  }

  /** Takes slot i, splitting it when something is left for a node. */
  method TakeSlot(r: Region, req: nat, prev: nat, cur: nat, ghost blobs: Blobs, ghost free: seq<Extent>, ghost i: nat)
    returns (r': Region, alloc: nat, ghost rest: seq<Extent>)
    requires RegionOk(r, blobs, free) && i < |free| && 0 < req <= free[i].len
    requires prev == Before(free, i) && cur == free[i].off
    ensures r'.id == r.id && r'.offset == r.offset && r'.live == r.live + alloc
    ensures cur !in blobs && RegionOk(r', blobs[cur := Blob(alloc, [])], rest)
    ensures (alloc, rest) == AllocOf(free, i, req)
  {
    hide RegionOk;
    NodeAt(r, blobs, free, i);
    var slot, next := r.mem[cur].size, r.mem[cur].next;
    if slot - req >= 1 {
      TakePart(r, blobs, free, i, req);
      var m := r.(mem := r.mem[cur + req := Node(slot - req, next)]);
      r' := Redirect(m, prev, cur + req);
      alloc, rest := req, free[i := TailOf(free[i], req)];
    } else {
      TakeWhole(r, blobs, free, i);
      r' := Redirect(r, prev, next);
      alloc, rest := slot, Remove(free, i);
    }
    r' := r'.(live := r'.live + alloc);
  }

  /** No free slot is large enough. */
  predicate NoneFits(free: seq<Extent>, req: nat) {
    forall i :: 0 <= i < |free| ==> free[i].len < req
  }

  /** First fit from the free list; a larger slot is split and its tail takes its place. */
  method TryFreeList(r: Region, req: nat, ghost blobs: Blobs, ghost free: seq<Extent>)
    returns (found: bool, r': Region, off: nat, alloc: nat, ghost rest: seq<Extent>, ghost i: nat)
    requires RegionOk(r, blobs, free) && req > 0
    ensures found <==> !NoneFits(free, req)
    ensures !found ==> r' == r && rest == free
    ensures found ==> r'.id == r.id && r'.offset == r.offset && r'.live == r.live + alloc
    ensures found ==> off !in blobs && RegionOk(r', blobs[off := Blob(alloc, [])], rest)
    ensures found ==>
              && i < |free| && off == free[i].off && req <= free[i].len
              && (forall k :: 0 <= k < i ==> free[k].len < req)
              && (alloc, rest) == AllocOf(free, i, req)
  {
    hide RegionOk;
    found, r', off, alloc, rest, i := false, r, 0, 0, free, 0;
    HeadIs(r, blobs, free);
    var prev, cur := 0, r.freeHead;
    while cur != 0
      invariant 0 <= i <= |free| && prev == Before(free, i) && cur == Next(free, i)
      invariant forall k :: 0 <= k < i ==> free[k].len < req
      decreases |free| - i
    {
      NodeAt(r, blobs, free, i);
      if r.mem[cur].size >= req {
        found, off := true, cur;
        r', alloc, rest := TakeSlot(r, req, prev, cur, blobs, free, i);
        return;
      }
      prev, cur := cur, r.mem[cur].next;
      i := i + 1;
    }
    if i < |free| {
      NodeAt(r, blobs, free, i);
    }
  }

  // -------------------------------------------------------------- bump allocation

  /** An offset rounded up to 16 bytes. */
  function AlignUp(offset: nat): nat { offset + offset % 2 }

  function BumpAt(r: Region): nat { AlignUp(r.offset) }

  lemma {:induction false} TiledRaised(offset: nat, higher: nat, blobs: Blobs, free: seq<Extent>)
    requires Tiled(offset, blobs, free) && offset <= higher
    ensures Tiled(higher, blobs, free)
  {
  }

  /** Everything so far lies below the bump pointer, so a slot above it is apart from it. */
  lemma {:induction false} AboveIsApart(offset: nat, blobs: Blobs, free: seq<Extent>, e: Extent)
    requires Tiled(offset, blobs, free) && offset <= e.off
    ensures forall k :: 0 <= k < |free| ==> free[k].Apart(e)
    ensures forall p :: p in blobs ==> SlotOf(blobs, p).Apart(e)
  {
  }

  function Bump(r: Region, req: nat): (r': Region)
    ensures r'.id == r.id
  {
    r.(offset := BumpAt(r) + req, live := r.live + req)
  }

  lemma {:induction false} BumpKeeps(r: Region, blobs: Blobs, free: seq<Extent>, req: nat)
    requires RegionOk(r, blobs, free) && req > 0 && BumpAt(r) + req <= CAPACITY
    ensures BumpAt(r) !in blobs && RegionOk(Bump(r, req), blobs[BumpAt(r) := Blob(req, [])], free)
  {
    var o := BumpAt(r);
    TiledRaised(r.offset, o + req, blobs, free);
    AboveIsApart(r.offset, blobs, free, Extent(o, req));
    hide Listed, Tiled, Total, Intact;
    SlotTaken(r.(offset := o + req), blobs, free, o, req);
  }

  // -------------------------------------------------------------- writing the data

  lemma {:induction false} TotalSame(blobs: Blobs, o: nat, b: Blob)
    requires o in blobs && blobs[o].alloc == b.alloc
    ensures Total(blobs[o := b]) == Total(blobs)
  {
    TotalWithout(blobs, o);
    TotalWithout(blobs[o := b], o);
    assert blobs[o := b] - {o} == blobs - {o};
  }

  lemma {:induction false} PutKeepsList(mem: seq<Granule>, head: nat, offset: nat, blobs: Blobs, free: seq<Extent>,
                                        o: nat, at: nat, g: Granule)
    requires Listed(mem, head, free) && Tiled(offset, blobs, free)
    requires o in blobs && o <= at < o + blobs[o].alloc && at < |mem|
    ensures Listed(mem[at := g], head, free)
  {
    assert forall i :: 0 <= i < |free| ==> SlotOf(blobs, o).Apart(free[i]);
  }

  lemma {:induction false} PutKeepsData(mem: seq<Granule>, offset: nat, blobs: Blobs, free: seq<Extent>, o: nat, x: nat)
    requires Intact(mem, blobs) && Tiled(offset, blobs, free)
    requires o in blobs && |blobs[o].data| < blobs[o].alloc
    ensures o + |blobs[o].data| < |mem|
    ensures Intact(mem[o + |blobs[o].data| := Data(x)], blobs[o := Blob(blobs[o].alloc, blobs[o].data + [x])])
  {
    assert forall p :: p in blobs && p != o ==> SlotOf(blobs, p).Apart(SlotOf(blobs, o));
  }

  lemma {:induction false} TiledSame(offset: nat, blobs: Blobs, free: seq<Extent>, o: nat, b: Blob)
    requires Tiled(offset, blobs, free) && o in blobs && blobs[o].alloc == b.alloc
    ensures Tiled(offset, blobs[o := b], free)
  {
    assert forall p :: p in blobs ==> SlotOf(blobs[o := b], p) == SlotOf(blobs, p);
  }

  /** One granule of a memcpy into a slot. */
  lemma {:induction false} PutOne(r: Region, blobs: Blobs, free: seq<Extent>, o: nat, x: nat)
    requires RegionOk(r, blobs, free) && o in blobs && |blobs[o].data| < blobs[o].alloc
    ensures o + |blobs[o].data| < |r.mem|
    ensures RegionOk(r.(mem := r.mem[o + |blobs[o].data| := Data(x)]),
                     blobs[o := Blob(blobs[o].alloc, blobs[o].data + [x])], free)
  {
    hide Listed, Tiled, Total, Intact;
    var b := Blob(blobs[o].alloc, blobs[o].data + [x]);
    PutKeepsData(r.mem, r.offset, blobs, free, o, x);
    PutKeepsList(r.mem, r.freeHead, r.offset, blobs, free, o, o + |blobs[o].data|, Data(x));
    TiledSame(r.offset, blobs, free, o, b);
    TotalSame(blobs, o, b);
  }

  /** memcpy of the data into a slot just taken. */
  method Put(r: Region, off: nat, data: seq<nat>, ghost blobs: Blobs, ghost free: seq<Extent>, ghost alloc: nat)
    returns (r': Region)
    requires off in blobs && blobs[off] == Blob(alloc, []) && |data| <= alloc && RegionOk(r, blobs, free)
    ensures r'.id == r.id && r'.offset == r.offset && r'.live == r.live
    ensures RegionOk(r', blobs[off := Blob(alloc, data)], free)
  {
    hide RegionOk;
    r' := r;
    assert blobs[off := Blob(alloc, data[..0])] == blobs;
    for k := 0 to |data|
      invariant r'.id == r.id && r'.offset == r.offset && r'.live == r.live
      invariant RegionOk(r', blobs[off := Blob(alloc, data[..k])], free)
    {
      ghost var now := blobs[off := Blob(alloc, data[..k])];
      PutOne(r', now, free, off, data[k]);
      assert data[..k + 1] == data[..k] + [data[k]];
      assert now[off := Blob(alloc, data[..k + 1])] == blobs[off := Blob(alloc, data[..k + 1])];
      r' := r'.(mem := r'.mem[off + k := Data(data[k])]);
    }
    assert data[..|data|] == data;
  }

  /** Every blob of a region reads back as stored. */
  lemma {:induction false} ReadsBack(r: Region, blobs: Blobs, free: seq<Extent>, off: nat)
    requires RegionOk(r, blobs, free) && off in blobs
    ensures off + |blobs[off].data| <= |r.mem|
    ensures forall k :: 0 <= k < |blobs[off].data| ==> r.mem[off + k] == Data(blobs[off].data[k])
  {
  }

  // -------------------------------------------------------------- release

  /** A reset region: nothing in use, nothing on the list. */
  function Reset(r: Region): Region { r.(offset := DATA_START, freeHead := 0) }

  function Release(r: Region, off: nat, alloc: nat): (r': Region)
    requires off < |r.mem| && alloc <= r.live
    ensures r'.id == r.id
  {
    var rest := r.(live := r.live - alloc);
    if r.live <= alloc then Reset(rest)
    else rest.(mem := rest.mem[off := Node(alloc, r.freeHead)], freeHead := off)
  }

  lemma {:induction false} EmptyRegionOk(r: Region)
    requires |r.mem| == CAPACITY && r.live == 0 && r.offset == DATA_START && r.freeHead == 0
    ensures RegionOk(r, map[], [])
  {
  }

  lemma {:induction false} TiledFreed(offset: nat, blobs: Blobs, free: seq<Extent>, o: nat)
    requires Tiled(offset, blobs, free) && o in blobs
    ensures Tiled(offset, blobs - {o}, [SlotOf(blobs, o)] + free)
  {
    var list := [SlotOf(blobs, o)] + free;
    assert forall i :: 0 < i < |list| ==> list[i] == free[i - 1];
    assert forall p :: p in blobs - {o} ==> SlotOf(blobs - {o}, p) == SlotOf(blobs, p);
  }

  lemma {:induction false} ListedFreed(mem: seq<Granule>, head: nat, offset: nat, blobs: Blobs, free: seq<Extent>,
                                       o: nat)
    requires Listed(mem, head, free) && Tiled(offset, blobs, free) && o in blobs && o < |mem|
    ensures Listed(mem[o := Node(blobs[o].alloc, head)], o, [SlotOf(blobs, o)] + free)
  {
    var list := [SlotOf(blobs, o)] + free;
    assert forall i :: 0 <= i < |free| ==> SlotOf(blobs, o).Apart(free[i]);
    assert forall i :: 0 < i < |list| ==> list[i] == free[i - 1];
  }

  lemma {:induction false} IntactFreed(mem: seq<Granule>, offset: nat, blobs: Blobs, free: seq<Extent>,
                                       o: nat, g: Granule)
    requires Intact(mem, blobs) && Tiled(offset, blobs, free) && o in blobs && o < |mem|
    ensures Intact(mem[o := g], blobs - {o})
  {
    assert forall p :: p in blobs && p != o ==> SlotOf(blobs, p).Apart(SlotOf(blobs, o));
  }

  /** The only blob of a region uses all of its live granules. */
  lemma {:induction false} LastBlob(offset: nat, blobs: Blobs, free: seq<Extent>, o: nat)
    requires Tiled(offset, blobs, free) && o in blobs && Total(blobs) <= blobs[o].alloc
    ensures blobs - {o} == map[]
  {
    TotalWithout(blobs, o);
    if p :| p in blobs - {o} {
      TotalWithout(blobs - {o}, p);
      assert false;
    }
  }

  lemma {:induction false} ReleaseKeeps(r: Region, blobs: Blobs, free: seq<Extent>, off: nat)
    requires RegionOk(r, blobs, free) && off in blobs
    ensures off < |r.mem| && blobs[off].alloc <= r.live
    ensures RegionOk(Release(r, off, blobs[off].alloc), blobs - {off},
                     if r.live <= blobs[off].alloc then [] else [SlotOf(blobs, off)] + free)
  {
    TotalWithout(blobs, off);
    assert SlotOf(blobs, off).Below(r.offset);
    TiledFreed(r.offset, blobs, free, off);
    ListedFreed(r.mem, r.freeHead, r.offset, blobs, free, off);
    IntactFreed(r.mem, r.offset, blobs, free, off, Node(blobs[off].alloc, r.freeHead));
    if r.live <= blobs[off].alloc {
      LastBlob(r.offset, blobs, free, off);
      EmptyRegionOk(Release(r, off, blobs[off].alloc));
    }
    hide Listed, Tiled, Total, Intact;
  }

  // -------------------------------------------------------------- alignment

  /** A slot on a 16-byte boundary, that is an even granule, whose end is one too unless it is a single granule. */
  predicate EvenSlot(e: Extent) {
    e.off % 2 == 0 && e.len > 0 && (e.len % 2 == 0 || e.len == 1)
  }

  ghost predicate Aligned(blobs: Blobs, free: seq<Extent>) {
    && (forall o :: o in blobs ==> EvenSlot(SlotOf(blobs, o)))
    && (forall i :: 0 <= i < |free| ==> EvenSlot(free[i]))
  }

  /** Requests are multiples of 16 bytes, or a single granule. */
  predicate Unit(req: nat) { req > 0 && (req % 2 == 0 || req == 1) }

  /** The request takes one granule off a longer free slot. */
  predicate Splits(free: seq<Extent>, req: nat) {
    req == 1 && free != [] && free[0].len > 1
  }

  /** First fit hands out a 16-byte boundary; the region stays aligned if and only if no single granule is
      split off a longer slot. */
  lemma {:induction false} TakeAligned(blobs: Blobs, free: seq<Extent>, i: nat, req: nat)
    requires Aligned(blobs, free) && i < |free| && Unit(req) && req <= free[i].len
    requires forall k :: 0 <= k < i ==> free[k].len < req
    ensures free[i].off % 2 == 0
    ensures var (alloc, rest) := AllocOf(free, i, req);
            Aligned(With(blobs, free[i].off, Blob(alloc, [])), rest) <==> !Splits(free, req)
  {
    assert EvenSlot(free[i]);
    var (alloc, rest) := AllocOf(free, i, req);
    var blobs' := blobs[free[i].off := Blob(alloc, [])];
    if Splits(free, req) {
      assert EvenSlot(free[0]);
      assert i == 0 && !EvenSlot(rest[0]);
    } else {
      forall k | 0 <= k < |rest| ensures EvenSlot(rest[k]) {
        assert rest[k] in free || (k == i && rest[k] == TailOf(free[i], req));
      }
      forall o | o in blobs' ensures EvenSlot(SlotOf(blobs', o)) {
        assert o != free[i].off ==> SlotOf(blobs', o) == SlotOf(blobs, o);
      }
    }
  }

  lemma {:induction false} BumpAligned(offset: nat, blobs: Blobs, free: seq<Extent>, req: nat)
    requires Aligned(blobs, free) && Unit(req)
    ensures AlignUp(offset) % 2 == 0 && Aligned(With(blobs, AlignUp(offset), Blob(req, [])), free)
  {
    var blobs' := With(blobs, AlignUp(offset), Blob(req, []));
    forall o | o in blobs' ensures EvenSlot(SlotOf(blobs', o)) {
      assert o != AlignUp(offset) ==> SlotOf(blobs', o) == SlotOf(blobs, o);
    }
  }

  lemma {:induction false} ReleaseAligned(blobs: Blobs, free: seq<Extent>, off: nat)
    requires Aligned(blobs, free) && off in blobs
    ensures Aligned(blobs - {off}, [SlotOf(blobs, off)] + free) && Aligned(blobs - {off}, [])
  {
    var rest := blobs - {off};
    forall o | o in rest ensures EvenSlot(SlotOf(rest, o)) {
      assert SlotOf(rest, o) == SlotOf(blobs, o);
    }
  }

  lemma {:induction false} PutAligned(blobs: Blobs, free: seq<Extent>, off: nat, data: seq<nat>)
    requires off in blobs
    ensures Aligned(With(blobs, off, Blob(blobs[off].alloc, data)), free) <==> Aligned(blobs, free)
  {
    var blobs' := blobs[off := Blob(blobs[off].alloc, data)];
    assert forall o :: o in blobs ==> SlotOf(blobs', o) == SlotOf(blobs, o);
    assert forall o :: o in blobs' ==> SlotOf(blobs', o) == SlotOf(blobs, o);
  }

  /** One granule off a longer slot on a boundary, then any request that fits what is left: the second slot
      starts 8 bytes behind the boundary. */
  method TakeAfterSplit(r: Region, req: nat, ghost blobs: Blobs, ghost free: seq<Extent>)
    returns (r': Region, first: nat, second: nat)
    requires RegionOk(r, blobs, free) && Splits(free, 1) && free[0].off % 2 == 0 && 0 < req < free[0].len
    ensures first == free[0].off && second == first + 1 && first % 2 == 0 && second % 2 == 1
  {
    hide RegionOk;
    var found, mid, a;
    ghost var rest, i, last;
    found, mid, first, a, rest, i := TryFreeList(r, 1, blobs, free);
    assert i == 0;
    ghost var blobs' := blobs[first := Blob(a, [])];
    assert rest[0].len >= req;
    found, r', second, a, last, i := TryFreeList(mid, req, blobs', rest);
    assert i == 0;
  }
}

module CompressStore {
  import opened Basics
  import opened StoreRegion
  import opened StoreSpec

  /** What `store` hands out; `alloc` must be given back to `release`. */
  datatype Stored = Failed | Stored(key: Key, alloc: nat)

  type Contents = map<Key, Blob>

  ghost predicate AllOk(regions: seq<Region>, held: seq<Blobs>, frees: seq<seq<Extent>>) {
    && |held| == |frees| == |regions|
    && forall i :: 0 <= i < |regions| ==> RegionOk(regions[i], held[i], frees[i])
  }

  function Ids(regions: seq<Region>): (ids: seq<nat>)
    ensures |ids| == |regions| && forall i :: 0 <= i < |regions| ==> ids[i] == regions[i].id
  {
    seq(|regions|, i requires 0 <= i < |regions| => regions[i].id)
  }

  predicate HeldAt(ids: seq<nat>, held: seq<Blobs>, i: nat, k: Key) {
    i < |ids| && i < |held| && ids[i] == k.region && k.off in held[i]
  }

  /** The contents are exactly the blobs held by the regions. */
  ghost predicate Reflects(ids: seq<nat>, held: seq<Blobs>, contents: Contents) {
    && (forall i: nat, k: Key {:trigger HeldAt(ids, held, i, k)} :: HeldAt(ids, held, i, k) ==>
          k in contents && contents[k] == held[i][k.off])
    && (forall k :: k in contents ==> exists i: nat :: HeldAt(ids, held, i, k))
  }

  ghost predicate Distinct(ids: seq<nat>) {
    forall i, j :: 0 <= i < j < |ids| ==> ids[i] != ids[j]
  }

  lemma {:induction false} ReflectsUpdate(ids: seq<nat>, held: seq<Blobs>, contents: Contents, i: nat, o: nat, b: Blob)
    requires Distinct(ids) && Reflects(ids, held, contents) && i < |ids| == |held|
    ensures Reflects(ids, held[i := With(held[i], o, b)], contents[Key(ids[i], o) := b])
  {
    var key := Key(ids[i], o);
    var held', contents' := held[i := With(held[i], o, b)], contents[key := b];
    forall j: nat, k: Key | HeldAt(ids, held', j, k) ensures k in contents' && contents'[k] == held'[j][k.off] {
      assert k == key || HeldAt(ids, held, j, k);
    }
    forall k | k in contents' ensures exists j: nat :: HeldAt(ids, held', j, k) {
      if k == key {
        assert HeldAt(ids, held', i, k);
      } else {
        var j: nat :| HeldAt(ids, held, j, k);
        assert HeldAt(ids, held', j, k);
      }
    }
  }

  lemma {:induction false} ReflectsRemove(ids: seq<nat>, held: seq<Blobs>, contents: Contents, i: nat, o: nat)
    requires Distinct(ids) && Reflects(ids, held, contents) && i < |ids| == |held|
    ensures Reflects(ids, held[i := held[i] - {o}], contents - {Key(ids[i], o)})
  {
    var held', contents' := held[i := held[i] - {o}], contents - {Key(ids[i], o)};
    forall j: nat, k: Key | HeldAt(ids, held', j, k) ensures k in contents' && contents'[k] == held'[j][k.off] {
      assert HeldAt(ids, held, j, k);
    }
    forall k | k in contents' ensures exists j: nat :: HeldAt(ids, held', j, k) {
      var j: nat :| HeldAt(ids, held, j, k);
      assert HeldAt(ids, held', j, k);
    }
  }

  lemma {:induction false} ReflectsPush(ids: seq<nat>, held: seq<Blobs>, contents: Contents, id: nat)
    requires Reflects(ids, held, contents) && |ids| == |held|
    ensures Reflects([id] + ids, [map[]] + held, contents)
  {
    forall j: nat, k: Key | HeldAt([id] + ids, [map[]] + held, j, k)
      ensures k in contents && contents[k] == ([map[]] + held)[j][k.off]
    {
      assert HeldAt(ids, held, j - 1, k);
    }
    forall k | k in contents ensures exists j: nat :: HeldAt([id] + ids, [map[]] + held, j, k) {
      var j: nat :| HeldAt(ids, held, j, k);
      assert HeldAt([id] + ids, [map[]] + held, j + 1, k);
    }
  }

  ghost function AreasOf(regions: seq<Region>, held: seq<Blobs>, frees: seq<seq<Extent>>): (areas: seq<Area>)
    requires |held| == |frees| == |regions|
    ensures |areas| == |regions|
  {
    seq(|regions|, i requires 0 <= i < |regions| =>
      Area(regions[i].id, regions[i].offset, regions[i].live, held[i], frees[i]))
  }

  lemma {:induction false} AreasUpdate(regions: seq<Region>, held: seq<Blobs>, frees: seq<seq<Extent>>,
                                       i: nat, r: Region, h: Blobs, f: seq<Extent>)
    requires |held| == |frees| == |regions| && i < |regions|
    ensures AreasOf(regions[i := r], held[i := h], frees[i := f]) ==
            AreasOf(regions, held, frees)[i := Area(r.id, r.offset, r.live, h, f)]
  {
  }

  lemma {:induction false} AreasPush(regions: seq<Region>, held: seq<Blobs>, frees: seq<seq<Extent>>, r: Region)
    requires |held| == |frees| == |regions|
    ensures AreasOf([r] + regions, [map[]] + held, [[]] + frees) ==
            [Area(r.id, r.offset, r.live, map[], [])] + AreasOf(regions, held, frees)
  {
  }

  lemma {:induction false} IsFound(regions: seq<Region>, held: seq<Blobs>, frees: seq<seq<Extent>>, id: nat)
    requires |held| == |frees| == |regions| && id in Ids(regions)
    ensures var i := Find(AreasOf(regions, held, frees), id);
            i < |regions| && regions[i].id == id && forall j :: 0 <= j < i ==> regions[j].id != id
  {
    var areas := AreasOf(regions, held, frees);
    assert forall j :: 0 <= j < |regions| ==> areas[j].id == regions[j].id == Ids(regions)[j];
  }

  lemma {:induction false} WrittenTwice(contents: Contents, key: Key, a: Blob, b: Blob)
    ensures contents[key := a][key := b] == contents[key := b]
  {
  }

  /** Area i granted the request. */
  predicate Granted(was: seq<Area>, now: seq<Area>, i: nat, off: nat, alloc: nat, req: nat) {
    i < |was| && var (a, o, n) := Grant(was[i], req); now == was[i := a] && off == o && alloc == n
  }

  lemma {:induction false} FrontIsNew(regions: seq<Region>, held: seq<Blobs>, frees: seq<seq<Extent>>,
                                      id: nat, areas: seq<Area>, req: nat)
    requires |held| == |frees| == |regions| && AreasOf(regions, held, frees) == [NewArea(id)] + areas
    ensures |regions| == |areas| + 1 && BumpAt(regions[0]) == DATA_START && NoneFits(frees[0], req)
  {
    assert AreasOf(regions, held, frees)[0] == NewArea(id);
  }

  lemma {:induction false} FrontGranted(areas: seq<Area>, id: nat, req: nat)
    ensures var a := Grant(NewArea(id), req).0;
            ([NewArea(id)] + areas)[0] == NewArea(id) && ([NewArea(id)] + areas)[0 := a] == [a] + areas
  {
    hide Grant;
  }

  lemma {:induction false} FreeGrant(a: Area, i: nat, req: nat)
    requires i < |a.free| && req <= a.free[i].len && forall k :: 0 <= k < i ==> a.free[k].len < req
    ensures var (alloc, rest) := AllocOf(a.free, i, req); var off := a.free[i].off;
            alloc >= req && Grant(a, req) ==
            (Area(a.id, a.offset, a.live + alloc, With(a.held, off, Blob(alloc, [])), rest), off, alloc)
  {
    assert i == FirstFit(a.free, req);
  }

  lemma {:induction false} BumpGrant(a: Area, req: nat)
    requires NoneFits(a.free, req)
    ensures var off := AlignUp(a.offset);
            Grant(a, req) == (Area(a.id, off + req, a.live + req, With(a.held, off, Blob(req, [])), a.free), off, req)
  {
    assert FirstFit(a.free, req) == |a.free|;
  }

  lemma {:induction false} PushKeeps(regions: seq<Region>, held: seq<Blobs>, frees: seq<seq<Extent>>, r: Region)
    requires Distinct(Ids(regions)) && AllOk(regions, held, frees)
    requires r.id !in Ids(regions) && RegionOk(r, map[], [])
    ensures Ids([r] + regions) == [r.id] + Ids(regions) && Distinct(Ids([r] + regions))
    ensures AllOk([r] + regions, [map[]] + held, [[]] + frees)
  {
    hide RegionOk;
    var ids := [r.id] + Ids(regions);
    assert Ids([r] + regions) == ids;
    assert forall j :: 0 < j < |ids| ==> ids[j] == Ids(regions)[j - 1];
  }

  lemma {:induction false} OnlyOneSplits(areas: seq<Area>, req: nat)
    ensures SplitsNext(areas, req) <==> req == 1 && SplitsNext(areas, 1)
  {
  }

  /** The free list of one region, by the book. */
  method TryGrant(r: Region, req: nat, ghost blobs: Blobs, ghost free: seq<Extent>)
    returns (ok: bool, r': Region, off: nat, alloc: nat, ghost rest: seq<Extent>)
    requires RegionOk(r, blobs, free) && req > 0
    ensures ok <==> !NoneFits(free, req)
    ensures ok ==> r'.id == r.id && alloc >= req && off !in blobs
    ensures ok ==> RegionOk(r', With(blobs, off, Blob(alloc, [])), rest)
    ensures ok ==> Grant(Area(r.id, r.offset, r.live, blobs, free), req) ==
                   (Area(r'.id, r'.offset, r'.live, With(blobs, off, Blob(alloc, [])), rest), off, alloc)
  {
    ghost var which;
    hide RegionOk, Grant, AllocOf, NoneFits;
    ok, r', off, alloc, rest, which := TryFreeList(r, req, blobs, free);
    if ok {
      FreeGrant(Area(r.id, r.offset, r.live, blobs, free), which, req);
    }
  }

  /** One shard: its regions, the current one first. */
  class Shard {
    var regions: seq<Region>
    ghost var held: seq<Blobs>
    ghost var frees: seq<seq<Extent>>
    ghost var contents: Contents

    ghost predicate Valid()
      reads this
    {
      Distinct(Ids(regions)) && AllOk(regions, held, frees) && Reflects(Ids(regions), held, contents)
    }

    ghost function Areas(): seq<Area>
      requires |held| == |frees| == |regions|
      reads this
    {
      AreasOf(regions, held, frees)
    }

    constructor ()
      ensures Valid() && contents == map[] && regions == [] && Areas() == []
    {
      regions, held, frees, contents := [], [], [], map[];
    }

    lemma {:induction false} Sizes()
      requires Valid()
      ensures |held| == |frees| == |regions|
    {
    }

    /** A region without a free list has nothing that fits. */
    lemma {:induction false} NoList(i: nat, req: nat)
      requires Valid() && i < |regions|
      ensures |frees| == |regions| && (regions[i].freeHead == 0 ==> NoneFits(frees[i], req))
    {
      assert RegionOk(regions[i], held[i], frees[i]);
      hide AllOk, Reflects, Distinct;
    }

    lemma {:induction false} RegionIsOk(i: nat)
      requires Valid() && i < |regions|
      ensures |held| == |frees| == |regions| && RegionOk(regions[i], held[i], frees[i])
    {
    }

    lemma {:induction false} NotHeld(i: nat, o: nat)
      requires Valid() && i < |regions| && o !in held[i]
      ensures Key(regions[i].id, o) !in contents
    {
      hide RegionOk;
      if Key(regions[i].id, o) in contents {
        var j: nat :| HeldAt(Ids(regions), held, j, Key(regions[i].id, o));
      }
    }

    /** Records that region i now is r and holds blob b at o. */
    method Record(i: nat, r: Region, ghost o: nat, ghost b: Blob, ghost free: seq<Extent>)
      requires Valid() && i < |regions| && r.id == regions[i].id
      requires RegionOk(r, With(held[i], o, b), free)
      modifies this
      ensures Valid() && Ids(regions) == old(Ids(regions)) && |regions| == |old(regions)| && regions[i].id == r.id
      ensures held == old(held)[i := With(old(held)[i], o, b)]
      ensures Areas() == old(Areas())[i := Area(r.id, r.offset, r.live, With(old(held)[i], o, b), free)]
      ensures contents == old(contents)[Key(r.id, o) := b]
    {
      ReflectsUpdate(Ids(regions), held, contents, i, o, b);
      AreasUpdate(regions, held, frees, i, r, With(held[i], o, b), free);
      assert Ids(regions[i := r]) == Ids(regions);
      hide RegionOk, Reflects, Distinct, AreasOf;
      contents := contents[Key(r.id, o) := b];
      held := held[i := With(held[i], o, b)];
      frees := frees[i := free];
      regions := regions[i := r];
    }

    /** What every allocation does: one new, empty slot of at least `req` granules, named by (i, off). */
    twostate predicate Took(i: nat, off: nat, alloc: nat, req: nat)
      reads this
    {
      && i < |regions| && i < |held| && alloc >= req
      && Key(regions[i].id, off) !in old(contents)
      && contents == old(contents)[Key(regions[i].id, off) := Blob(alloc, [])]
      && off in held[i] && held[i][off] == Blob(alloc, [])
    }

    twostate predicate Untouched()
      reads this
    {
      contents == old(contents) && regions == old(regions) && held == old(held) && frees == old(frees)
    }

    /** Commits region i to r, which has granted the request. */
    method Commit(i: nat, r: Region, off: nat, alloc: nat, req: nat, ghost free: seq<Extent>)
      requires Valid() && i < |regions| && r.id == regions[i].id && alloc >= req
      requires off !in held[i] && RegionOk(r, With(held[i], off, Blob(alloc, [])), free)
      requires Grant(Areas()[i], req) ==
               (Area(r.id, r.offset, r.live, With(held[i], off, Blob(alloc, [])), free), off, alloc)
      modifies this
      ensures Valid() && Ids(regions) == old(Ids(regions))
      ensures Took(i, off, alloc, req) && Granted(old(Areas()), Areas(), i, off, alloc, req)
    {
      Sizes();
      NotHeld(i, off);
      hide RegionOk, AllOk, Reflects, Distinct, Grant, AreasOf;
      Record(i, r, off, Blob(alloc, []), free);
      Sizes();
    }

    /** Tries the free list of region i: the region as it would be. */
    method TryRegion(i: nat, req: nat) returns (ok: bool, r: Region, off: nat, alloc: nat, ghost free: seq<Extent>)
      requires Valid() && i < |regions| && req > 0
      ensures ok <==> !NoneFits(frees[i], req)
      ensures ok ==>
                && r.id == regions[i].id && alloc >= req
                && off !in held[i] && RegionOk(r, With(held[i], off, Blob(alloc, [])), free)
                && Grant(Areas()[i], req) ==
                   (Area(r.id, r.offset, r.live, With(held[i], off, Blob(alloc, [])), free), off, alloc)
    {
      RegionIsOk(i);
      assert Areas()[i] == Area(regions[i].id, regions[i].offset, regions[i].live, held[i], frees[i]);
      hide *;
      ok, r, off, alloc, free := TryGrant(regions[i], req, held[i], frees[i]);
    }

    /** The free list of region i. */
    method FromFreeList(i: nat, req: nat) returns (ok: bool, off: nat, alloc: nat)
      requires Valid() && i < |regions| && req > 0
      modifies this
      ensures Valid() && Ids(regions) == old(Ids(regions)) && (ok <==> !NoneFits(old(frees[i]), req))
      ensures !ok ==> Untouched()
      ensures ok ==> Took(i, off, alloc, req) && Granted(old(Areas()), Areas(), i, off, alloc, req)
    {
      Sizes();
      hide RegionOk, AllOk, Reflects, Distinct, Grant, Granted, NoneFits, AreasOf, With, Ids;
      var r;
      ghost var free;
      ok, r, off, alloc, free := TryRegion(i, req);
      if ok {
        Commit(i, r, off, alloc, req, free);
      }
    }

    /** Bump allocation in region i. */
    method FromBump(i: nat, req: nat) returns (ok: bool, off: nat)
      requires Valid() && i < |regions| && req > 0 && i < |frees| && NoneFits(frees[i], req)
      modifies this
      ensures Valid() && Ids(regions) == old(Ids(regions)) && ok == (BumpAt(old(regions[i])) + req <= CAPACITY)
      ensures !ok ==> Untouched()
      ensures ok ==> Took(i, off, req, req) && Granted(old(Areas()), Areas(), i, off, req, req)
    {
      RegionIsOk(i);
      ghost var area := Areas()[i];
      off := BumpAt(regions[i]);
      ok := off + req <= CAPACITY;
      hide RegionOk, AllOk, Reflects, Distinct, Grant, Granted, Ids, NoneFits;
      if ok {
        BumpKeeps(regions[i], held[i], frees[i], req);
        BumpGrant(area, req);
        Commit(i, Bump(regions[i], req), off, req, req, frees[i]);
      }
    }

    /** A region not seen before, first in the chain. */
    method PushRegion(id: nat)
      requires Valid() && id !in Ids(regions)
      modifies this
      ensures Valid() && contents == old(contents) && Ids(regions) == [id] + old(Ids(regions))
      ensures Areas() == [NewArea(id)] + old(Areas())
    {
      var r := Region(id, seq(CAPACITY, _ => Data(0)), DATA_START, 0, 0);
      EmptyRegionOk(r);
      ReflectsPush(Ids(regions), held, contents, id);
      AreasPush(regions, held, frees, r);
      PushKeeps(regions, held, frees, r);
      hide RegionOk, Reflects, AreasOf, AllOk, Distinct, Ids;
      regions, held, frees := [r] + regions, [map[]] + held, [[]] + frees;
    }

    /** Older regions: a slot off their free list, or a region that was reset. */
    method FromOlder(req: nat) returns (ok: bool, i: nat, off: nat, alloc: nat)
      requires Valid() && req > 0 && regions != []
      modifies this
      ensures Valid() && Ids(regions) == old(Ids(regions))
      ensures i == Server(old(Areas()), 1, req) && (ok <==> i < |old(regions)|)
      ensures !ok ==> Untouched()
      ensures ok ==> Took(i, off, alloc, req) && Granted(old(Areas()), Areas(), i, off, alloc, req)
    {
      Sizes();
      ghost var areas := Areas();
      hide AllOk, Reflects, Distinct, RegionOk, Grant, NoneFits, Ids;
      ok, i, off, alloc := false, 1, 0, 0;
      while i < |regions|
        invariant Valid() && contents == old(contents) && regions == old(regions)
        invariant held == old(held) && frees == old(frees)
        invariant 1 <= i <= |regions| && Server(areas, 1, req) == Server(areas, i, req)
        decreases |regions| - i
      {
        NoList(i, req);
        if regions[i].freeHead != 0 {
          ok, off, alloc := FromFreeList(i, req);
          if ok {
            return;
          }
        }
        if regions[i].live == 0 && regions[i].offset == DATA_START {
          ok, off := FromBump(i, req);
          alloc := req;
          if ok {
            return;
          }
        }
        assert !Serves(areas[i], false, req);
        i := i + 1;
      }
    }

    /** The current region and older ones. */
    method FromChain(req: nat) returns (ok: bool, i: nat, off: nat, alloc: nat)
      requires Valid() && req > 0
      modifies this
      ensures Valid() && Ids(regions) == old(Ids(regions))
      ensures i == Server(old(Areas()), 0, req) && (ok <==> i < |old(regions)|)
      ensures !ok ==> Untouched()
      ensures ok ==> Took(i, off, alloc, req) && Granted(old(Areas()), Areas(), i, off, alloc, req)
    {
      Sizes();
      ghost var areas := Areas();
      hide AllOk, Reflects, Distinct, RegionOk, Grant, NoneFits, Ids;
      ok, i, off, alloc := false, 0, 0, 0;
      if regions != [] {
        ok, off, alloc := FromFreeList(0, req);
        if ok {
          return;
        }
        ok, off := FromBump(0, req);
        alloc := req;
        if ok {
          return;
        }
        assert !Serves(areas[0], true, req);
        ok, i, off, alloc := FromOlder(req);
      }
    }

    /** A slot in a new region, pushed in front. */
    method FromNew(req: nat, newId: nat) returns (off: nat)
      requires Valid() && req > 0 && DATA_START + req <= CAPACITY && newId !in Ids(regions)
      modifies this
      ensures Valid() && Ids(regions) == [newId] + old(Ids(regions)) && Took(0, off, req, req)
      ensures var (a, o, n) := Grant(NewArea(newId), req); Areas() == [a] + old(Areas()) && off == o && req == n
    {
      Sizes();
      ghost var areas := Areas();
      hide AllOk, Reflects, Distinct, RegionOk, Grant, Ids, AreasOf, NewArea, Valid, NoneFits, BumpAt;
      PushRegion(newId);
      Sizes();
      FrontIsNew(regions, held, frees, newId, areas, req);
      var ok;
      ok, off := FromBump(0, req);
      FrontGranted(areas, newId, req);
    }

    /** bumpAlloc: the chain of regions, then a new region (when the system has one). */
    method Allocate(req: nat, newId: nat, mmapFails: bool) returns (ok: bool, i: nat, off: nat, alloc: nat)
      requires Valid() && req > 0 && DATA_START + req <= CAPACITY && newId !in Ids(regions)
      modifies this
      ensures Valid() && (ok ==> Took(i, off, alloc, req)) && (!ok ==> contents == old(contents) && mmapFails)
      ensures Ids(regions) == old(Ids(regions)) || Ids(regions) == [newId] + old(Ids(regions))
      ensures var p := Place(old(Areas()), req, newId, mmapFails);
              if ok then p == Placed(Areas(), i, off, alloc) else p.Refused? && Areas() == old(Areas())
      ensures !ok || |regions| > |old(regions)| ==> NoRoom(old(Areas()), req)
      ensures old(regions != [] && |frees| > 0 && !NoneFits(frees[0], req)) ==>
                ok && i == 0 && |regions| == |old(regions)| && regions[0].offset == old(regions[0].offset)
      ensures ok && AllAligned(old(Areas())) && Unit(req) ==>
                off % 2 == 0 && (AllAligned(Areas()) <==> !SplitsNext(old(Areas()), req))
    {
      Sizes();
      ghost var areas := Areas();
      PlaceReuses(areas, req, newId, mmapFails);
      if AllAligned(areas) && Unit(req) {
        PlaceAligned(areas, req, newId, mmapFails);
      }
      hide AllOk, Reflects, Distinct, RegionOk, Grant, AllAligned, SplitsNext, Ids, NoRoom, Server;
      ok, i, off, alloc := FromChain(req);
      if ok {
        Sizes();
        return;
      }
      i, off, alloc := 0, 0, 0;
      if mmapFails {
        return;
      }
      off := FromNew(req, newId);
      Sizes();
      ok, alloc := true, req;
    }

    /** memcpy of the data into a slot just taken in region i. */
    method FillSlot(i: nat, off: nat, alloc: nat, data: seq<nat>)
      requires Valid() && i < |regions| && i < |held|
      requires off in held[i] && held[i][off] == Blob(alloc, []) && |data| <= alloc
      modifies this
      ensures Valid() && Ids(regions) == old(Ids(regions))
      ensures Areas() == Fill(old(Areas()), i, off, data)
      ensures contents == old(contents)[Key(old(regions)[i].id, off) := Blob(alloc, data)]
    {
      RegionIsOk(i);
      ghost var area := Areas()[i];
      hide AllOk, Reflects, RegionOk, Distinct;
      assert held[i] == With(held[i], off, Blob(alloc, []));
      var r := Put(regions[i], off, data, held[i], frees[i], alloc);
      Record(i, r, off, Blob(alloc, data), frees[i]);
    }

    /** Stores a blob of `bytes` bytes; on success it is in a slot nobody else has. */
    method Store(data: seq<nat>, bytes: nat, newId: nat, mmapFails: bool) returns (s: Stored)
      requires Valid() && |data| == (bytes + 7) / 8
      requires DATA_START + Request(bytes) <= CAPACITY && newId !in Ids(regions)
      modifies this
      ensures Valid() && (s.Failed? ==> contents == old(contents) && mmapFails)
      ensures Ids(regions) == old(Ids(regions)) || Ids(regions) == [newId] + old(Ids(regions))
      ensures match Place(old(Areas()), Request(bytes), newId, mmapFails)
              case Refused => s.Failed? && Areas() == old(Areas())
              case Placed(areas, i, off, alloc) =>
                s == Stored(Key(areas[i].id, off), alloc) && Areas() == Fill(areas, i, off, data)
      ensures s.Failed? || |regions| > |old(regions)| ==> NoRoom(old(Areas()), Request(bytes))
      ensures s.Stored? && AllAligned(old(Areas())) ==>
                && s.key.off % 2 == 0
                && (AllAligned(Areas()) <==> !(bytes == 0 && SplitsNext(old(Areas()), 1)))
      ensures s.Stored? ==> s.alloc >= Request(bytes)
      ensures s.Stored? ==> s.key !in old(contents) && contents == old(contents)[s.key := Blob(s.alloc, data)]
    {
      Sizes();
      RequestIsUnit(bytes);
      OnlyOneSplits(Areas(), Request(bytes));
      hide AllOk, Reflects, RegionOk, AllAligned, SplitsNext, NoRoom, Request, Distinct, Place, Ids;
      var ok, i, off, alloc := Allocate(Request(bytes), newId, mmapFails);
      if !ok {
        return Failed;
      }
      Sizes();
      var key := Key(regions[i].id, off);
      WrittenTwice(old(contents), key, Blob(alloc, []), Blob(alloc, data));
      FillAligned(Areas(), i, off, data);
      FillSlot(i, off, alloc, data);
      s := Stored(key, alloc);
    }

    /** regionOf: the region a slot lies in. */
    method RegionOf(id: nat) returns (i: nat)
      requires Valid() && id in Ids(regions)
      ensures i < |regions| && regions[i].id == id && i == Find(Areas(), id)
    {
      Sizes();
      IsFound(regions, held, frees, id);
      ghost var found := Find(AreasOf(regions, held, frees), id);
      var chain := regions;
      hide AllOk, Reflects, Distinct, AreasOf, Find, Ids;
      i := 0;
      while chain[i].id != id
        invariant i <= found < |chain|
        decreases found - i
      {
        i := i + 1;
      }
    }

    lemma {:induction false} WhereHeld(i: nat, key: Key)
      requires Valid() && key in contents && i < |regions| && regions[i].id == key.region
      ensures i < |held| && key.off in held[i] && held[i][key.off] == contents[key]
    {
      hide RegionOk;
      var j: nat :| HeldAt(Ids(regions), held, j, key);
      assert i == j;
    }

    lemma {:induction false} RegionExists(key: Key)
      requires Valid() && key in contents
      ensures key.region in Ids(regions)
    {
      hide RegionOk;
      var j: nat :| HeldAt(Ids(regions), held, j, key);
    }

    /** Reads a stored blob back. */
    method Fetch(key: Key, length: nat) returns (data: seq<nat>)
      requires Valid() && key in contents && length == |contents[key].data|
      ensures data == contents[key].data
    {
      hide RegionOk, Reflects, Distinct;
      RegionExists(key);
      var i := RegionOf(key.region);
      WhereHeld(i, key);
      RegionIsOk(i);
      ReadsBack(regions[i], held[i], frees[i], key.off);
      data := [];
      for k := 0 to length
        invariant data == contents[key].data[..k]
      {
        assert regions[i].mem[key.off + k] == Data(held[i][key.off].data[k]);
        data := data + [regions[i].mem[key.off + k].x];
      }
    }

    /** Records that region i now is r and no longer holds a blob at o. */
    method Forget(i: nat, r: Region, ghost o: nat, ghost free: seq<Extent>)
      requires Valid() && i < |regions| && r.id == regions[i].id
      requires RegionOk(r, held[i] - {o}, free)
      modifies this
      ensures Valid() && contents == old(contents) - {Key(r.id, o)} && Ids(regions) == old(Ids(regions))
      ensures Areas() == old(Areas())[i := Area(r.id, r.offset, r.live, old(held)[i] - {o}, free)]
    {
      ReflectsRemove(Ids(regions), held, contents, i, o);
      AreasUpdate(regions, held, frees, i, r, held[i] - {o}, free);
      assert Ids(regions[i := r]) == Ids(regions);
      hide RegionOk, Reflects, Distinct, AreasOf;
      contents := contents - {Key(r.id, o)};
      held := held[i := held[i] - {o}];
      frees := frees[i := free];
      regions := regions[i := r];
    }

    /** Releases a blob, given the slot size that `store` reported for it. */
    method Release(key: Key, alloc: nat)
      requires Valid() && key in contents && alloc == contents[key].alloc
      modifies this
      ensures Valid() && contents == old(contents) - {key} && Ids(regions) == old(Ids(regions))
      ensures var i := Find(old(Areas()), key.region);
              && i < |old(Areas())| && key.off in old(Areas())[i].held
              && Areas() == old(Areas())[i := Give(old(Areas())[i], key.off)]
      ensures AllAligned(old(Areas())) ==> AllAligned(Areas())
    {
      hide RegionOk, Reflects, Distinct, AllOk, AllAligned;
      RegionExists(key);
      var i := RegionOf(key.region);
      WhereHeld(i, key);
      RegionIsOk(i);
      ghost var area := Areas()[i];
      ReleaseKeeps(regions[i], held[i], frees[i], key.off);
      if AllAligned(Areas()) {
        GiveAligned(Areas(), i, key.off);
      }
      var r := StoreRegion.Release(regions[i], key.off, alloc);
      Forget(i, r, key.off, if regions[i].live <= alloc then [] else [SlotOf(held[i], key.off)] + frees[i]);
    }
  }

  // -------------------------------------------------------------- whole runs

  function AfterOne(before: seq<seq<nat>>, op: Op, ok: bool): seq<seq<nat>> {
    match op
    case Keep(data, _, _) => if ok then before + [data] else before
    case Drop(k) => if k < |before| then Remove(before, k) else before
    case Fresh(_) => before
  }

  /** The data held after the operations, oldest first, given which of them succeeded. */
  function After(ops: seq<Op>, oks: seq<bool>): seq<seq<nat>>
    requires |oks| == |ops|
  {
    if ops == [] then []
    else
      var m := |ops| - 1;
      AfterOne(After(ops[..m], oks[..m]), ops[m], oks[m])
  }

  function Datas(live: seq<Ticket>): (q: seq<seq<nat>>)
    ensures |q| == |live|
  {
    seq(|live|, i requires 0 <= i < |live| => live[i].data)
  }

  /** The tickets name exactly the blobs held. */
  ghost predicate Holds(contents: Contents, live: seq<Ticket>) {
    && (forall i, j :: 0 <= i < j < |live| ==> live[i].key != live[j].key)
    && (forall i :: 0 <= i < |live| ==>
          live[i].key in contents && contents[live[i].key] == Blob(live[i].alloc, live[i].data))
    && (forall k :: k in contents ==> exists i :: 0 <= i < |live| && live[i].key == k)
  }

  lemma {:induction false} HoldsMore(contents: Contents, live: seq<Ticket>, t: Ticket)
    requires Holds(contents, live) && t.key !in contents
    ensures Holds(contents[t.key := Blob(t.alloc, t.data)], live + [t])
  {
    var more, contents' := live + [t], contents[t.key := Blob(t.alloc, t.data)];
    forall k | k in contents' ensures exists i :: 0 <= i < |more| && more[i].key == k {
      if k == t.key {
        assert more[|live|].key == k;
      } else {
        var i :| 0 <= i < |live| && live[i].key == k;
        assert more[i].key == k;
      }
    }
  }

  /** Where element i of a sequence without its k-th element stood. */
  function From(i: nat, k: nat): nat { if i < k then i else i + 1 }

  lemma {:induction false} RemovedAt(live: seq<Ticket>, k: nat, i: nat)
    requires k < |live| && i < |live| - 1
    ensures Remove(live, k)[i] == live[From(i, k)]
  {
  }

  lemma {:induction false} StillNamed(contents: Contents, live: seq<Ticket>, k: nat, key: Key)
    requires Holds(contents, live) && k < |live| && key in contents && key != live[k].key
    ensures var rest := Remove(live, k); exists i :: 0 <= i < |rest| && rest[i].key == key
  {
    var i :| 0 <= i < |live| && live[i].key == key;
    assert Remove(live, k)[if i < k then i else i - 1].key == key;
  }

  lemma {:induction false} HoldsLess(contents: Contents, live: seq<Ticket>, k: nat)
    requires Holds(contents, live) && k < |live|
    ensures Holds(contents - {live[k].key}, Remove(live, k))
  {
    var rest := Remove(live, k);
    assert |rest| == |live| - 1;
    hide Remove;
    forall i, j | 0 <= i < j < |rest| ensures rest[i].key != rest[j].key {
      RemovedAt(live, k, i);
      RemovedAt(live, k, j);
    }
    forall i | 0 <= i < |rest|
      ensures rest[i].key != live[k].key && rest[i].key in contents
      ensures contents[rest[i].key] == Blob(rest[i].alloc, rest[i].data)
    {
      RemovedAt(live, k, i);
    }
    forall key | key in contents - {live[k].key} ensures exists i :: 0 <= i < |rest| && rest[i].key == key {
      StillNamed(contents, live, k, key);
    }
  }

  /** Ids seen so far lie below `next`. */
  predicate IdsBelow(ids: seq<nat>, next: nat) {
    forall i :: 0 <= i < |ids| ==> ids[i] < next
  }

  lemma {:induction false} DatasChange(live: seq<Ticket>, t: Ticket, k: nat)
    ensures Datas(live + [t]) == Datas(live) + [t.data]
    ensures k < |live| ==> Datas(Remove(live, k)) == Remove(Datas(live), k)
  {
  }

  lemma {:induction false} NoDatas()
    ensures Datas([]) == []
  {
  }

  lemma {:induction false} IdsStayBelow(was: seq<nat>, now: seq<nat>, next: nat)
    requires IdsBelow(was, next) && (now == was || now == [next] + was)
    ensures IdsBelow(now, next + 1)
  {
  }

  lemma {:induction false} HoldsAt(contents: Contents, live: seq<Ticket>, k: nat)
    requires Holds(contents, live) && k < |live|
    ensures live[k].key in contents && contents[live[k].key] == Blob(live[k].alloc, live[k].data)
  {
  }

  /** The shard and the caller's tickets are those of the book. */
  ghost predicate Follows(shard: Shard, live: seq<Ticket>, b: Book)
    reads shard
  {
    && shard.Valid() && Holds(shard.contents, live) && IdsBelow(Ids(shard.regions), b.next)
    && shard.Areas() == b.areas && live == b.tickets
  }

  lemma {:induction false} KeepStep(b: Book, op: Op)
    requires op.Keep?
    ensures match Place(b.areas, Request(op.bytes), b.next, op.mmapFails)
            case Refused => Step(b, op) == b.(next := b.next + 1)
            case Placed(areas, i, off, alloc) =>
              Step(b, op) == Book(Fill(areas, i, off, op.data),
                                  b.tickets + [Ticket(Key(areas[i].id, off), alloc, op.data)], b.next + 1)
  {
  }

  method ApplyKeep(shard: Shard, op: Op, live: seq<Ticket>, next: nat, ghost b: Book)
    returns (ok: bool, live': seq<Ticket>)
    requires Follows(shard, live, b) && op.Keep? && op.Storable() && next == b.next
    modifies shard
    ensures Follows(shard, live', Step(b, op))
    ensures Datas(live') == AfterOne(Datas(live), op, ok) && (!ok ==> op.mmapFails) && (ok <==> live' != live)
  {
    shard.Sizes();
    KeepStep(b, op);
    hide AllAligned, Holds, NoRoom, Datas, Ids, Request, Shard.Valid, Place, SplitsNext, Step, Fill;
    assert next !in Ids(shard.regions);
    var s := shard.Store(op.data, op.bytes, next, op.mmapFails);
    shard.Sizes();
    IdsStayBelow(old(Ids(shard.regions)), Ids(shard.regions), next);
    ok, live' := s.Stored?, live;
    if ok {
      var t := Ticket(s.key, s.alloc, op.data);
      HoldsMore(old(shard.contents), live, t);
      DatasChange(live, t, 0);
      live' := live + [t];
    }
  }

  lemma {:induction false} DropStep(b: Book, k: nat)
    ensures k >= |b.tickets| ==> Step(b, Drop(k)) == b.(next := b.next + 1)
    ensures k < |b.tickets| ==>
              var key := b.tickets[k].key; var i := Find(b.areas, key.region);
              i < |b.areas| && key.off in b.areas[i].held ==>
                Step(b, Drop(k)) == Book(b.areas[i := Give(b.areas[i], key.off)], Remove(b.tickets, k), b.next + 1)
  {
  }

  method ApplyDrop(shard: Shard, k: nat, live: seq<Ticket>, ghost b: Book) returns (live': seq<Ticket>)
    requires Follows(shard, live, b)
    modifies shard
    ensures Follows(shard, live', Step(b, Drop(k)))
    ensures Datas(live') == AfterOne(Datas(live), Drop(k), true)
  {
    shard.Sizes();
    DropStep(b, k);
    hide AllAligned, Holds, Ids, Shard.Valid, Give, Step, Find, Datas;
    live' := live;
    IdsStayBelow(Ids(shard.regions), Ids(shard.regions), b.next);
    if k < |live| {
      HoldsAt(shard.contents, live, k);
      HoldsLess(shard.contents, live, k);
      DatasChange(live, live[k], k);
      shard.Release(live[k].key, live[k].alloc);
      shard.Sizes();
      live' := Remove(live, k);
    }
  }

  method ApplyFresh(shard: Shard, mmapFails: bool, live: seq<Ticket>, next: nat, ghost b: Book)
    requires Follows(shard, live, b) && next == b.next
    modifies shard
    ensures Follows(shard, live, Step(b, Fresh(mmapFails)))
  {
    shard.Sizes();
    hide Holds, Ids, Shard.Valid;
    assert next !in Ids(shard.regions);
    if !mmapFails {
      shard.PushRegion(next);
      shard.Sizes();
    }
    IdsStayBelow(old(Ids(shard.regions)), Ids(shard.regions), next);
  }

  /** One operation, by the book. */
  method Apply(shard: Shard, op: Op, live: seq<Ticket>, next: nat, ghost b: Book) returns (ok: bool, live': seq<Ticket>)
    requires Follows(shard, live, b) && op.Storable() && next == b.next
    modifies shard
    ensures Follows(shard, live', Step(b, op)) && Datas(live') == AfterOne(Datas(live), op, ok)
    ensures ok <==> match op case Keep(_, _, _) => live' != live case Drop(_) => true case Fresh(fails) => !fails
  {
    hide Follows, Step, Datas, Request;
    ok, live' := true, live;
    match op
    case Keep(_, _, _) => ok, live' := ApplyKeep(shard, op, live, next, b);
    case Drop(k) => live' := ApplyDrop(shard, k, live, b);
    case Fresh(mmapFails) =>
      ApplyFresh(shard, mmapFails, live, next, b);
      ok := !mmapFails;
  }

  /** Reads every blob held, in the order stored. */
  method ReadAll(shard: Shard, live: seq<Ticket>) returns (back: seq<seq<nat>>)
    requires shard.Valid() && Holds(shard.contents, live)
    ensures back == Datas(live)
  {
    hide Holds, Shard.Valid, Datas;
    back := [];
    NoDatas();
    for k := 0 to |live|
      invariant back == Datas(live[..k])
    {
      HoldsAt(shard.contents, live, k);
      var data := shard.Fetch(live[k].key, |live[k].data|);
      DatasChange(live[..k], live[k], 0);
      assert live[..k + 1] == live[..k] + [live[k]];
      back := back + [data];
    }
    assert live[..|live|] == live;
  }

  lemma {:induction false} NothingHeld(shard: Shard)
    requires shard.Valid() && shard.contents == map[] && shard.regions == [] && shard.Areas() == []
    ensures Follows(shard, [], Run([])) && Run([]).next == 0 && Datas([]) == [] && After([], []) == []
  {
  }

  lemma {:induction false} AfterSnoc(ops: seq<Op>, oks: seq<bool>, i: nat, ok: bool)
    requires i < |ops| && |oks| == i
    ensures After(ops[..i + 1], oks + [ok]) == AfterOne(After(ops[..i], oks), ops[i], ok)
    ensures Run(ops[..i + 1]) == Step(Run(ops[..i]), ops[i]) && Run(ops[..i + 1]).next == Run(ops[..i]).next + 1
  {
    assert ops[..i + 1][..i] == ops[..i] && (oks + [ok])[..i] == oks;
  }

  lemma {:induction false} FollowsParts(shard: Shard, live: seq<Ticket>, b: Book)
    requires Follows(shard, live, b)
    ensures shard.Valid() && |shard.held| == |shard.frees| == |shard.regions| && Holds(shard.contents, live)
    ensures shard.Areas() == b.areas && live == b.tickets
  {
  }

  /** A store answers with a failure when it leaves no ticket. */
  lemma {:induction false} AnswerIs(shard: Shard, ops: seq<Op>, i: nat, live: seq<Ticket>, ok: bool)
    requires i < |ops| && ops[i].Storable() && Follows(shard, live, Run(ops[..i + 1]))
    requires ok <==> match ops[i]
                     case Keep(_, _, _) => live != Run(ops[..i]).tickets
                     case Drop(_) => true
                     case Fresh(fails) => !fails
    ensures ok <==> !Fails(Run(ops[..i]), ops[i])
  {
    FollowsParts(shard, live, Run(ops[..i + 1]));
    assert ops[..i + 1][..i] == ops[..i];
    assert Run(ops[..i + 1]) == Step(Run(ops[..i]), ops[i]);
    hide Follows, Run, Step, Full, Op.Storable;
    if ops[i].Keep? {
      FullIff(ops[..i], ops[i]);
    }
  }

  /** Any sequence of operations goes by the book: what is still held reads back as stored, in order, and is
      where `Run` puts it; a store fails exactly when the shard is full and no memory can be mapped. */
  method Replay(ops: seq<Op>) returns (shard: Shard, back: seq<seq<nat>>, oks: seq<bool>)
    requires forall i :: 0 <= i < |ops| ==> ops[i].Storable()
    ensures shard.Valid() && |oks| == |ops| && back == After(ops, oks)
    ensures shard.Areas() == Run(ops).areas && back == Datas(Run(ops).tickets)
    ensures forall i :: 0 <= i < |ops| ==> (oks[i] <==> !Fails(Run(ops[..i]), ops[i]))
    ensures Permitted(ops, false) ==> OnBoundary(shard.Areas())
  {
    shard := new Shard();
    oks := [];
    var live: seq<Ticket> := [];
    NothingHeld(shard);
    hide Follows, Datas, AfterOne, After, Run, Op.Storable, Step, Fails;
    assert ops[..0] == [];
    for i := 0 to |ops|
      invariant fresh(shard) && |oks| == i && Run(ops[..i]).next == i
      invariant Follows(shard, live, Run(ops[..i])) && Datas(live) == After(ops[..i], oks)
      invariant forall j :: 0 <= j < i ==> (oks[j] <==> !Fails(Run(ops[..j]), ops[j]))
    {
      var ok;
      FollowsParts(shard, live, Run(ops[..i]));
      ok, live := Apply(shard, ops[i], live, i, Run(ops[..i]));
      AfterSnoc(ops, oks, i, ok);
      AnswerIs(shard, ops, i, live, ok);
      oks := oks + [ok];
    }
    assert ops[..|ops|] == ops;
    FollowsParts(shard, live, Run(ops));
    back := ReadAll(shard, live);
    if Permitted(ops, false) {
      RunAligned(ops);
      AlignedOnBoundary(Run(ops).areas);
    }
  }
}
