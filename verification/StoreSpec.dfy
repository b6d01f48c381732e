/** What a shard of the blob store (src/compress/compress_store.h) does, on values: which region serves a
    request, what is left of its free list, and whole runs of stores and releases. */
module StoreSpec {
  import opened Basics
  import opened StoreRegion

  /** Granules asked for: 16-byte units, at least one node. */
  function Request(bytes: nat): nat {
    if bytes == 0 then 1 else 2 * ((bytes + 15) / 16)
  }

  /** The least number of 16-byte units that covers the bytes; one granule for none. */
  lemma {:induction false} RequestIsUnit(bytes: nat)
    ensures Unit(Request(bytes)) && (Request(bytes) == 1 <==> bytes == 0) && (bytes + 7) / 8 <= Request(bytes)
    ensures bytes > 0 ==> Request(bytes) % 2 == 0 && Request(bytes) * 8 - 16 < bytes <= Request(bytes) * 8
  {
  }

  /** A region as its shard sees it: bump pointer, granules in use, live blobs, free slots in list order. */
  datatype Area = Area(id: nat, offset: nat, live: nat, held: Blobs, free: seq<Extent>)

  function NewArea(id: nat): Area { Area(id, DATA_START, 0, map[], []) }

  // -------------------------------------------------------------- one request

  /** The first free slot that is large enough; |free| if there is none. */
  function FirstFit(free: seq<Extent>, req: nat): (i: nat)
    ensures i <= |free| && (i < |free| ==> req <= free[i].len)
    ensures forall k :: 0 <= k < i ==> free[k].len < req
  {
    if free == [] then 0
    else
      var m := |free| - 1;
      var i := FirstFit(free[..m], req);
      if i < m then i else if req <= free[m].len then m else m + 1
  }

  /** The area after serving a request, where the slot is and how large. */
  function Grant(a: Area, req: nat): (Area, nat, nat) {
    var i := FirstFit(a.free, req);
    if i < |a.free| then
      var off := a.free[i].off;
      var (alloc, rest) := AllocOf(a.free, i, req);
      (a.(live := a.live + alloc, held := With(a.held, off, Blob(alloc, [])), free := rest), off, alloc)
    else
      var off := AlignUp(a.offset);
      (a.(offset := off + req, live := a.live + req, held := With(a.held, off, Blob(req, []))), off, req)
  }

  /** The area can serve: from its free list, or by its bump pointer (an older one only when it was reset). */
  predicate Serves(a: Area, current: bool, req: nat) {
    || !NoneFits(a.free, req)
    || ((current || (a.live == 0 && a.offset == DATA_START)) && AlignUp(a.offset) + req <= CAPACITY)
  }

  /** The first area from i on that can serve; |areas| if there is none. */
  function Server(areas: seq<Area>, i: nat, req: nat): (j: nat)
    requires i <= |areas|
    ensures i <= j <= |areas| && (j < |areas| ==> Serves(areas[j], j == 0, req))
    ensures forall k :: i <= k < j ==> !Serves(areas[k], k == 0, req)
    decreases |areas| - i
  {
    if i == |areas| || Serves(areas[i], i == 0, req) then i else Server(areas, i + 1, req)
  }

  /** No area can serve. */
  predicate NoRoom(areas: seq<Area>, req: nat) {
    forall i :: 0 <= i < |areas| ==> !Serves(areas[i], i == 0, req)
  }

  datatype Placement = Refused | Placed(areas: seq<Area>, i: nat, off: nat, alloc: nat)

  /** bumpAlloc: the first area that can serve, or a new one in front. */
  function Place(areas: seq<Area>, req: nat, newId: nat, mmapFails: bool): (p: Placement)
    ensures p.Placed? ==>
              p.i < |p.areas| && p.off in p.areas[p.i].held && p.areas[p.i].held[p.off] == Blob(p.alloc, [])
  {
    var i := Server(areas, 0, req);
    if i < |areas| then
      var (a, off, alloc) := Grant(areas[i], req);
      Placed(areas[i := a], i, off, alloc)
    else if mmapFails then Refused
    else
      var (a, off, alloc) := Grant(NewArea(newId), req);
      Placed([a] + areas, 0, off, alloc)
  }

  /** A request is refused, or a region added, only when no area can serve; a fitting free slot of the current
      area is used without moving its bump pointer. */
  lemma {:induction false} PlaceReuses(areas: seq<Area>, req: nat, newId: nat, mmapFails: bool)
    ensures var p := Place(areas, req, newId, mmapFails);
            && (p.Refused? ==> mmapFails && NoRoom(areas, req))
            && (p.Placed? && |p.areas| > |areas| ==> NoRoom(areas, req))
            && (areas != [] && !NoneFits(areas[0].free, req) ==>
                  p.Placed? && p.i == 0 && |p.areas| == |areas| && p.areas[0].offset == areas[0].offset)
  {
    if areas != [] && !NoneFits(areas[0].free, req) {
      assert Serves(areas[0], true, req) && FirstFit(areas[0].free, req) < |areas[0].free|;
    }
  }

  /** The blob's data goes into the slot. */
  function Fill(areas: seq<Area>, i: nat, off: nat, data: seq<nat>): seq<Area>
    requires i < |areas| && off in areas[i].held
  {
    areas[i := areas[i].(held := With(areas[i].held, off, Blob(areas[i].held[off].alloc, data)))]
  }

  /** The area after the release of a blob: reset when nothing else is in use. */
  function Give(a: Area, off: nat): Area
    requires off in a.held
  {
    var e := SlotOf(a.held, off);
    if a.live <= e.len then Area(a.id, DATA_START, 0, a.held - {off}, [])
    else a.(live := a.live - e.len, held := a.held - {off}, free := [e] + a.free)
  }

  // -------------------------------------------------------------- alignment of one request

  ghost predicate AllAligned(areas: seq<Area>) {
    forall i :: 0 <= i < |areas| ==> Aligned(areas[i].held, areas[i].free)
  }

  /** The request would take one granule off a longer free slot. */
  predicate SplitsNext(areas: seq<Area>, req: nat) {
    var i := Server(areas, 0, req);
    i < |areas| && Splits(areas[i].free, req)
  }

  lemma {:induction false} GrantAligned(a: Area, req: nat)
    requires Aligned(a.held, a.free) && Unit(req)
    ensures var (b, off, alloc) := Grant(a, req);
            off % 2 == 0 && (Aligned(b.held, b.free) <==> !Splits(a.free, req))
  {
    var i := FirstFit(a.free, req);
    if i < |a.free| {
      TakeAligned(a.held, a.free, i, req);
    } else {
      BumpAligned(a.offset, a.held, a.free, req);
    }
  }

  lemma {:induction false} AlignedUpdate(areas: seq<Area>, i: nat, a: Area)
    requires AllAligned(areas) && i < |areas|
    ensures AllAligned(areas[i := a]) <==> Aligned(a.held, a.free)
  {
    hide Aligned;
    assert areas[i := a][i] == a;
  }

  lemma {:induction false} AlignedPush(areas: seq<Area>, a: Area)
    requires AllAligned(areas)
    ensures AllAligned([a] + areas) <==> Aligned(a.held, a.free)
  {
    hide Aligned;
    assert ([a] + areas)[0] == a;
    assert forall i :: 0 < i < |[a] + areas| ==> ([a] + areas)[i] == areas[i - 1];
  }

  /** Every slot handed out is on a 16-byte boundary; the shard stays aligned if and only if the request does not
      take one granule off a longer free slot. */
  lemma {:induction false} PlaceAligned(areas: seq<Area>, req: nat, newId: nat, mmapFails: bool)
    requires AllAligned(areas) && Unit(req)
    ensures var p := Place(areas, req, newId, mmapFails);
            p.Placed? ==> p.off % 2 == 0 && (AllAligned(p.areas) <==> !SplitsNext(areas, req))
  {
    var i := Server(areas, 0, req);
    if i < |areas| {
      GrantAligned(areas[i], req);
      AlignedUpdate(areas, i, Grant(areas[i], req).0);
    } else {
      GrantAligned(NewArea(newId), req);
      AlignedPush(areas, Grant(NewArea(newId), req).0);
    }
    hide Aligned, AllAligned, Grant, Serves;
  }

  lemma {:induction false} FillAligned(areas: seq<Area>, i: nat, off: nat, data: seq<nat>)
    requires i < |areas| && off in areas[i].held
    ensures AllAligned(Fill(areas, i, off, data)) <==> AllAligned(areas)
  {
    PutAligned(areas[i].held, areas[i].free, off, data);
    hide Aligned;
    var after := Fill(areas, i, off, data);
    assert forall j :: 0 <= j < |areas| ==>
             (Aligned(after[j].held, after[j].free) <==> Aligned(areas[j].held, areas[j].free));
  }

  lemma {:induction false} GiveAligned(areas: seq<Area>, i: nat, off: nat)
    requires AllAligned(areas) && i < |areas| && off in areas[i].held
    ensures AllAligned(areas[i := Give(areas[i], off)])
  {
    ReleaseAligned(areas[i].held, areas[i].free, off);
    AlignedUpdate(areas, i, Give(areas[i], off));
  }

  // -------------------------------------------------------------- whole runs

  /** Names a slot: the region it is in and its offset there. */
  datatype Key = Key(region: nat, off: nat)

  /** What a caller keeps of a stored blob. */
  datatype Ticket = Ticket(key: Key, alloc: nat, data: seq<nat>)

  /** A store, the release of the k-th blob still held, or a fresh region in front (pushFreshRegions). */
  datatype Op = Keep(data: seq<nat>, bytes: nat, mmapFails: bool) | Drop(k: nat) | Fresh(mmapFails: bool) {
    predicate Storable() {
      Keep? ==> |data| == (bytes + 7) / 8 && DATA_START + Request(bytes) <= CAPACITY
    }

    predicate Empty() { Keep? && bytes == 0 }
  }

  /** `next` is an id no region has yet. */
  datatype Book = Book(areas: seq<Area>, tickets: seq<Ticket>, next: nat)

  /** The place of the area with that id; |areas| if there is none. */
  function Find(areas: seq<Area>, id: nat): (i: nat)
    ensures i <= |areas| && (i < |areas| ==> areas[i].id == id)
    ensures forall j :: 0 <= j < i ==> areas[j].id != id
  {
    if areas == [] then 0
    else
      var m := |areas| - 1;
      var i := Find(areas[..m], id);
      if i < m then i else if areas[m].id == id then m else m + 1
  }

  function KeepIn(b: Book, data: seq<nat>, bytes: nat, mmapFails: bool): Book {
    match Place(b.areas, Request(bytes), b.next, mmapFails)
    case Refused => b
    case Placed(areas, i, off, alloc) =>
      Book(Fill(areas, i, off, data), b.tickets + [Ticket(Key(areas[i].id, off), alloc, data)], b.next)
  }

  function DropFrom(b: Book, k: nat): Book {
    if k >= |b.tickets| then b
    else
      var key := b.tickets[k].key;
      var i := Find(b.areas, key.region);
      if i < |b.areas| && key.off in b.areas[i].held then
        Book(b.areas[i := Give(b.areas[i], key.off)], Remove(b.tickets, k), b.next)
      else b
  }

  function Step(b: Book, op: Op): Book {
    var after := match op
      case Keep(data, bytes, mmapFails) => KeepIn(b, data, bytes, mmapFails)
      case Drop(k) => DropFrom(b, k)
      case Fresh(mmapFails) => if mmapFails then b else b.(areas := [NewArea(b.next)] + b.areas);
    after.(next := b.next + 1)
  }

  function Run(ops: seq<Op>): Book {
    if ops == [] then Book([], [], 0) else Step(Run(ops[..|ops| - 1]), ops[|ops| - 1])
  }

  /** Every live blob starts on a 16-byte boundary. */
  ghost predicate OnBoundary(areas: seq<Area>) {
    forall i, o :: 0 <= i < |areas| && o in areas[i].held ==> o % 2 == 0
  }

  ghost predicate Permitted(ops: seq<Op>, empties: bool) {
    forall i :: 0 <= i < |ops| ==> ops[i].Storable() && (empties || !ops[i].Empty())
  }

  lemma {:induction false} AlignedOnBoundary(areas: seq<Area>)
    requires AllAligned(areas)
    ensures OnBoundary(areas)
  {
    forall i, o | 0 <= i < |areas| && o in areas[i].held ensures o % 2 == 0 {
      assert EvenSlot(SlotOf(areas[i].held, o));
    }
  }

  lemma {:induction false} StepAligned(b: Book, op: Op)
    requires AllAligned(b.areas) && !op.Empty()
    ensures AllAligned(Step(b, op).areas)
  {
    match op
    case Keep(data, bytes, mmapFails) =>
      RequestIsUnit(bytes);
      PlaceAligned(b.areas, Request(bytes), b.next, mmapFails);
      var p := Place(b.areas, Request(bytes), b.next, mmapFails);
      if p.Placed? {
        FillAligned(p.areas, p.i, p.off, data);
      }
    case Drop(k) =>
      if k < |b.tickets| {
        var key := b.tickets[k].key;
        var i := Find(b.areas, key.region);
        if i < |b.areas| && key.off in b.areas[i].held {
          GiveAligned(b.areas, i, key.off);
        }
      }
    case Fresh(mmapFails) =>
      AlignedPush(b.areas, NewArea(b.next));
  }

  lemma {:induction false} NothingAligned()
    ensures AllAligned([])
  {
  }

  lemma {:induction false} RunAligned(ops: seq<Op>)
    requires Permitted(ops, false)
    ensures AllAligned(Run(ops).areas)
  {
    hide AllAligned, Step;
    if ops != [] {
      RunAligned(ops[..|ops| - 1]);
      StepAligned(Run(ops[..|ops| - 1]), ops[|ops| - 1]);
    } else {
      NothingAligned();
    }
  }

  const BLANK: seq<nat> := [0, 0, 0, 0]

  /** Two 32-byte blobs, the first one released, an empty blob, a 16-byte blob. */
  const MISALIGNING: seq<Op> := [
    Keep(BLANK, 32, false), Keep(BLANK, 32, false), Drop(0), Keep([], 0, false), Keep([0, 0], 16, false)]

  lemma {:induction false} Extend(ops: seq<Op>, op: Op) returns (longer: seq<Op>)
    ensures longer == ops + [op] && Run(longer) == Step(Run(ops), op)
  {
    longer := ops + [op];
    assert longer[..|ops|] == ops;
  }

  /** A book of one area with that bump pointer, use and free list. */
  predicate IsOne(b: Book, offset: nat, live: nat, free: seq<Extent>) {
    |b.areas| == 1 && b.areas[0] == Area(0, offset, live, b.areas[0].held, free)
  }

  /** A store that the only area serves. */
  lemma {:induction false} KeepInOne(b: Book, data: seq<nat>, bytes: nat)
    requires |b.areas| == 1 && Serves(b.areas[0], true, Request(bytes))
    ensures var (a, off, alloc) := Grant(b.areas[0], Request(bytes)); var u := Step(b, Keep(data, bytes, false));
            && u.areas == [a.(held := With(a.held, off, Blob(alloc, data)))]
            && u.tickets == b.tickets + [Ticket(Key(a.id, off), alloc, data)]
  {
    var req := Request(bytes);
    hide Request;
    assert Server(b.areas, 0, req) == 0;
    var (a, off, alloc) := Grant(b.areas[0], req);
    assert b.areas[0 := a] == [a];
  }

  lemma {:induction false} FirstStore() returns (b: Book)
    ensures b == Step(Book([], [], 0), Keep(BLANK, 32, false))
    ensures IsOne(b, 10, 4, []) && 6 in b.areas[0].held && b.areas[0].held[6].alloc == 4
    ensures b.tickets == [Ticket(Key(0, 6), 4, BLANK)]
  {
    b := Step(Book([], [], 0), Keep(BLANK, 32, false));
    assert Server([], 0, 4) == 0;
    var a := Grant(NewArea(0), 4).0;
    assert Place([], 4, 0, false) == Placed([a] + [], 0, 6, 4);
    assert [a] + [] == [a];
  }

  lemma {:induction false} SecondStore(b: Book) returns (u: Book)
    requires IsOne(b, 10, 4, []) && 6 in b.areas[0].held && b.areas[0].held[6].alloc == 4 && |b.tickets| == 1
    ensures u == Step(b, Keep(BLANK, 32, false))
    ensures IsOne(u, 14, 8, []) && 6 in u.areas[0].held && u.areas[0].held[6].alloc == 4
    ensures u.tickets == b.tickets + [Ticket(Key(0, 10), 4, BLANK)]
  {
    u := Step(b, Keep(BLANK, 32, false));
    KeepInOne(b, BLANK, 32);
    assert Grant(b.areas[0], 4).1 == 10;
  }

  lemma {:induction false} FirstRelease(b: Book) returns (u: Book)
    requires IsOne(b, 14, 8, []) && 6 in b.areas[0].held && b.areas[0].held[6].alloc == 4
    requires |b.tickets| == 2 && b.tickets[0].key == Key(0, 6)
    ensures u == Step(b, Drop(0)) && IsOne(u, 14, 4, [Extent(6, 4)]) && |u.tickets| == 1
  {
    u := Step(b, Drop(0));
    assert Find(b.areas, 0) == 0;
    assert [Extent(6, 4)] + [] == [Extent(6, 4)];
  }

  lemma {:induction false} EmptyStore(b: Book) returns (u: Book)
    requires IsOne(b, 14, 4, [Extent(6, 4)]) && |b.tickets| == 1
    ensures u == Step(b, Keep([], 0, false)) && IsOne(u, 14, 5, [Extent(7, 3)]) && |u.tickets| == 2
  {
    u := Step(b, Keep([], 0, false));
    var a := b.areas[0];
    assert a.free[0] == Extent(6, 4);
    KeepInOne(b, [], 0);
    assert FirstFit(a.free, 1) == 0;
    assert a.free[0 := Extent(7, 3)] == [Extent(7, 3)];
  }

  lemma {:induction false} LastStore(b: Book) returns (u: Book)
    requires IsOne(b, 14, 5, [Extent(7, 3)]) && |b.tickets| == 2
    ensures u == Step(b, Keep([0, 0], 16, false)) && |u.areas| == 1
    ensures 7 in u.areas[0].held && u.areas[0].held[7] == Blob(2, [0, 0])
    ensures |u.tickets| == 3 && u.tickets[2] == Ticket(Key(0, 7), 2, [0, 0])
  {
    u := Step(b, Keep([0, 0], 16, false));
    var a := b.areas[0];
    assert a.free[0] == Extent(7, 3);
    KeepInOne(b, [0, 0], 16);
    assert FirstFit(a.free, 2) == 0;
  }

  lemma {:induction false} PlayHalf() returns (ops: seq<Op>)
    ensures ops == [] + [Keep(BLANK, 32, false)] + [Keep(BLANK, 32, false)] + [Drop(0)]
    ensures IsOne(Run(ops), 14, 4, [Extent(6, 4)]) && |Run(ops).tickets| == 1
  {
    assert Run([]) == Book([], [], 0);
    hide Step, Run, IsOne;
    var b := FirstStore();
    ops := Extend([], Keep(BLANK, 32, false));
    b := SecondStore(b);
    ops := Extend(ops, Keep(BLANK, 32, false));
    b := FirstRelease(b);
    ops := Extend(ops, Drop(0));
  }

  lemma {:induction false} MisaligningIsPermitted()
    ensures Permitted(MISALIGNING, true)
  {
  }

  /** The last blob of that run starts 8 bytes behind a boundary. */
  lemma {:induction false} EmptyBlobMisaligns()
    ensures Permitted(MISALIGNING, true)
    ensures var b := Run(MISALIGNING);
            && |b.areas| == 1 && 7 in b.areas[0].held && b.areas[0].held[7] == Blob(2, [0, 0])
            && |b.tickets| == 3 && b.tickets[2] == Ticket(Key(0, 7), 2, [0, 0])
  {
    MisaligningIsPermitted();
    hide Step, Run, Permitted, IsOne;
    var ops := PlayHalf();
    var b := EmptyStore(Run(ops));
    ops := Extend(ops, Keep([], 0, false));
    b := LastStore(b);
    ops := Extend(ops, Keep([0, 0], 16, false));
    assert ops == MISALIGNING;
  }

  /** In every run of stores, releases and fresh regions all blobs are on 16-byte boundaries, if and only if empty
      blobs are not stored. */
  lemma {:induction false} BoundaryIffNeverEmpty(empties: bool)
    ensures (forall ops :: Permitted(ops, empties) ==> OnBoundary(Run(ops).areas)) <==> !empties
  {
    if empties {
      EmptyBlobMisaligns();
      assert !OnBoundary(Run(MISALIGNING).areas);
    } else {
      forall ops | Permitted(ops, false) ensures OnBoundary(Run(ops).areas) {
        RunAligned(ops);
        AlignedOnBoundary(Run(ops).areas);
      }
    }
  }

  // -------------------------------------------------------------- when a request finds no room

  /** Live and free slots tile the area below its bump pointer; an area without blobs is as new. */
  ghost predicate AreaOk(a: Area) {
    && DATA_START <= a.offset && Tiled(a.offset, a.held, a.free) && a.live == Total(a.held)
    && (a.held == map[] ==> a.offset == DATA_START && a.free == [])
  }

  ghost predicate AreasOk(areas: seq<Area>) {
    forall i :: 0 <= i < |areas| ==> AreaOk(areas[i])
  }

  lemma {:induction false} NewAreaOk(id: nat)
    ensures AreaOk(NewArea(id))
  {
  }

  lemma {:induction false} TakeOk(offset: nat, held: Blobs, free: seq<Extent>, i: nat, req: nat)
    requires Tiled(offset, held, free) && i < |free| && 0 < req <= free[i].len
    ensures var (alloc, rest) := AllocOf(free, i, req); var b := Blob(alloc, []);
            && free[i].off !in held && Tiled(offset, With(held, free[i].off, b), rest)
            && Total(With(held, free[i].off, b)) == Total(held) + alloc
  {
    var e := free[i];
    if e.len > req {
      assert TailOf(e, req).Within(e);
      TiledShrunk(offset, held, free, i, TailOf(e, req));
      PartApart(offset, held, free, i, req);
      hide Tiled;
      TiledWithBlob(offset, held, free[i := TailOf(e, req)], e.off, Blob(req, []));
      TotalWith(held, e.off, Blob(req, []));
    } else {
      TiledWithout(offset, held, free, i);
      assert e.Below(offset) && forall p :: p in held ==> SlotOf(held, p).Apart(e);
      hide Tiled;
      TiledWithBlob(offset, held, Remove(free, i), e.off, Blob(e.len, []));
      TotalWith(held, e.off, Blob(e.len, []));
    }
  }

  lemma {:induction false} RaiseOk(offset: nat, held: Blobs, free: seq<Extent>, req: nat)
    requires Tiled(offset, held, free) && DATA_START <= offset && req > 0
    ensures var off := AlignUp(offset); var b := Blob(req, []);
            && off !in held && Tiled(off + req, With(held, off, b), free)
            && Total(With(held, off, b)) == Total(held) + req
  {
    var off := AlignUp(offset);
    AboveIsApart(offset, held, free, Extent(off, req));
    TiledRaised(offset, off + req, held, free);
    hide Tiled;
    TiledWithBlob(off + req, held, free, off, Blob(req, []));
    TotalWith(held, off, Blob(req, []));
  }

  lemma {:induction false} GrantOk(a: Area, req: nat)
    requires AreaOk(a) && req > 0
    ensures AreaOk(Grant(a, req).0)
  {
    hide Tiled, Total;
    var i := FirstFit(a.free, req);
    if i < |a.free| {
      TakeOk(a.offset, a.held, a.free, i, req);
    } else {
      RaiseOk(a.offset, a.held, a.free, req);
    }
    var (b, off, alloc) := Grant(a, req);
    assert off in b.held;
  }

  lemma {:induction false} DataOk(a: Area, off: nat, data: seq<nat>)
    requires AreaOk(a) && off in a.held
    ensures AreaOk(a.(held := With(a.held, off, Blob(a.held[off].alloc, data))))
  {
    var b := Blob(a.held[off].alloc, data);
    TiledSame(a.offset, a.held, a.free, off, b);
    TotalSame(a.held, off, b);
    assert off in With(a.held, off, b);
    hide Tiled, Total;
  }

  lemma {:induction false} NothingTiled(offset: nat)
    ensures Tiled(offset, map[], []) && Total(map[]) == 0
  {
  }

  lemma {:induction false} GiveOk(a: Area, off: nat)
    requires AreaOk(a) && off in a.held
    ensures AreaOk(Give(a, off))
  {
    TotalWithout(a.held, off);
    TiledFreed(a.offset, a.held, a.free, off);
    NothingTiled(DATA_START);
    hide Tiled;
    if a.live <= a.held[off].alloc {
      LastBlob(a.offset, a.held, a.free, off);
    } else {
      assert a.held - {off} != map[];
    }
  }

  lemma {:induction false} PlaceOk(areas: seq<Area>, req: nat, newId: nat, mmapFails: bool)
    requires AreasOk(areas) && req > 0
    ensures var p := Place(areas, req, newId, mmapFails); p.Placed? ==> AreasOk(p.areas)
  {
    hide AreaOk, Serves;
    var i := Server(areas, 0, req);
    if i < |areas| {
      GrantOk(areas[i], req);
    } else {
      NewAreaOk(newId);
      GrantOk(NewArea(newId), req);
    }
    hide Grant;
  }

  lemma {:induction false} StepOk(b: Book, op: Op)
    requires AreasOk(b.areas)
    ensures AreasOk(Step(b, op).areas)
  {
    hide AreaOk;
    match op {
      case Keep(data, bytes, mmapFails) =>
        RequestIsUnit(bytes);
        PlaceOk(b.areas, Request(bytes), b.next, mmapFails);
        var p := Place(b.areas, Request(bytes), b.next, mmapFails);
        hide Place, Request;
        if p.Placed? {
          DataOk(p.areas[p.i], p.off, data);
        }
      case Drop(k) =>
        if k < |b.tickets| {
          var key := b.tickets[k].key;
          var i := Find(b.areas, key.region);
          if i < |b.areas| && key.off in b.areas[i].held {
            GiveOk(b.areas[i], key.off);
            hide Give;
          }
        }
      case Fresh(mmapFails) =>
        NewAreaOk(b.next);
        hide NewArea;
    }
  }

  lemma {:induction false} RunOk(ops: seq<Op>)
    ensures AreasOk(Run(ops).areas)
  {
    hide AreaOk, Step;
    if ops != [] {
      RunOk(ops[..|ops| - 1]);
      StepOk(Run(ops[..|ops| - 1]), ops[|ops| - 1]);
    }
  }

  /** No free slot is long enough, the first region has no room left above its rounded bump pointer, and every
      other region still holds a blob. */
  ghost predicate Full(areas: seq<Area>, req: nat) {
    && (forall i, k :: 0 <= i < |areas| && 0 <= k < |areas[i].free| ==> areas[i].free[k].len < req)
    && (areas != [] ==> areas[0].offset + areas[0].offset % 2 + req > CAPACITY)
    && (forall i :: 0 < i < |areas| ==> areas[i].held != map[])
  }

  lemma {:induction false} ServesIff(a: Area, current: bool, req: nat)
    requires AreaOk(a) && 0 < req <= CAPACITY - DATA_START
    ensures Serves(a, current, req) <==>
              || (exists k :: 0 <= k < |a.free| && a.free[k].len >= req)
              || (if current then a.offset + a.offset % 2 + req <= CAPACITY else a.held == map[])
  {
    if a.held != map[] {
      var o :| o in a.held;
      TotalWithout(a.held, o);
      assert SlotOf(a.held, o).Below(a.offset);
    }
  }

  lemma {:induction false} NoRoomIff(areas: seq<Area>, req: nat)
    requires AreasOk(areas) && 0 < req <= CAPACITY - DATA_START
    ensures NoRoom(areas, req) <==> Full(areas, req)
  {
    forall i | 0 <= i < |areas|
      ensures Serves(areas[i], i == 0, req) <==>
                || (exists k :: 0 <= k < |areas[i].free| && areas[i].free[k].len >= req)
                || (if i == 0 then areas[0].offset + areas[0].offset % 2 + req <= CAPACITY else areas[i].held == map[])
    {
      ServesIff(areas[i], i == 0, req);
    }
    hide Serves, AreaOk;
  }

  /** After any run a store is refused, or a region added, if and only if the shard is full in that sense. */
  lemma {:induction false} FullIff(ops: seq<Op>, op: Op)
    requires op.Keep? && op.Storable()
    ensures var b := Run(ops); var u := Step(b, op); var full := Full(b.areas, Request(op.bytes));
            && (u.tickets == b.tickets <==> full && op.mmapFails)
            && (|u.areas| != |b.areas| <==> full && !op.mmapFails)
            && (u.tickets != b.tickets ==> |u.tickets| == |b.tickets| + 1 && u.tickets[|b.tickets|].data == op.data)
  {
    var b, req := Run(ops), Request(op.bytes);
    RequestIsUnit(op.bytes);
    RunOk(ops);
    NoRoomIff(b.areas, req);
    assert Server(b.areas, 0, req) < |b.areas| <==> !NoRoom(b.areas, req);
    hide Run, Request, Full, NoRoom, Server, Serves, Grant;
  }

  /** The operation answers with a failure: a store for which the shard is full, or a fresh region, when no
      memory can be mapped. */
  ghost predicate Fails(b: Book, op: Op) {
    match op
    case Keep(_, bytes, mmapFails) => mmapFails && Full(b.areas, Request(bytes))
    case Drop(_) => false
    case Fresh(mmapFails) => mmapFails
  }

  /** An area is reset by a release exactly when that was its only blob. */
  lemma {:induction false} OnlyBlob(a: Area, off: nat)
    requires AreaOk(a) && off in a.held
    ensures a.live <= a.held[off].alloc <==> |a.held| == 1
  {
    TotalWithout(a.held, off);
    assert |a.held - {off}| == |a.held| - 1 by {
      assert a.held.Keys == (a.held - {off}).Keys + {off};
    }
    if a.live <= a.held[off].alloc {
      LastBlob(a.offset, a.held, a.free, off);
    } else {
      assert a.held - {off} != map[];
    }
  }

  /** The slot released last is the first one tried: a request it covers gets it back.  The last blob of an area
      leaves it as new. */
  lemma {:induction false} ReleasedIsNext(a: Area, off: nat, req: nat)
    requires AreaOk(a) && off in a.held && 0 < req <= a.held[off].alloc
    ensures var (b, at, alloc) := Grant(Give(a, off), req);
            if |a.held| == 1 then at == DATA_START && alloc == req && b.offset == DATA_START + req
            else at == off && alloc == req && b.offset == a.offset
  {
    OnlyBlob(a, off);
    hide AreaOk, Tiled, Total;
    if |a.held| != 1 {
      var free := [SlotOf(a.held, off)] + a.free;
      assert free[0].len >= req;
      assert FirstFit(free, req) == 0;
    }
  }
}
