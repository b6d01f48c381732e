/** The AllocSet shim patched into PostgreSQL (bench/postgres_shim_build.py): every palloc is a
    block of its own, linked into the set's doubly linked block list, with a running byte
    count kept in an unsigned 64-bit word. */
module AllocSetShim {
  import opened Basics

  const WORD: nat := 0x1_0000_0000_0000_0000

  /** ALLOC_BLOCKHDRSZ + ALLOC_CHUNKHDRSZ. */
  const HEADERS: nat := 48

  function MaxAlign(size: nat): nat { (size + 7) / 8 * 8 }
  function BlockSize(size: nat): nat { MaxAlign(size) + HEADERS }

  /** A block holds the headers and the bytes asked for, rounded up to the next multiple of 8. */
  lemma BlockSizeIs(size: nat)
    ensures size + 48 <= BlockSize(size) < size + 48 + 8 && BlockSize(size) % 8 == 0
  {
  }

  function Sum(q: seq<nat>): nat {
    if q == [] then 0 else q[0] + Sum(q[1..])
  }

  lemma {:induction false} SumInsert(q: seq<nat>, k: nat, v: nat)
    requires k <= |q|
    ensures Sum(q[..k] + [v] + q[k..]) == Sum(q) + v
  {
    var r := q[..k] + [v] + q[k..];
    if k == 0 {
      assert r[1..] == q;
    } else {
      SumInsert(q[1..], k - 1, v);
      assert r[1..] == q[1..][..k - 1] + [v] + q[1..][k - 1..];
    }
  }

  lemma {:induction false} SumRemove(q: seq<nat>, k: nat)
    requires k < |q|
    ensures Sum(q[..k] + q[k + 1..]) == Sum(q) - q[k]
  {
    var r := q[..k] + q[k + 1..];
    SumInsert(r, k, q[k]);
    assert r[..k] + [q[k]] + r[k..] == q;
  }

  lemma {:induction false} SumReplace(q: seq<nat>, k: nat, v: nat)
    requires k < |q|
    ensures Sum(q[k := v]) == Sum(q) - q[k] + v
  {
    SumRemove(q, k);
    var r := q[..k] + q[k + 1..];
    SumInsert(r, k, v);
    assert r[..k] + [v] + r[k..] == q[k := v];
  }

  /** A malloc'd block; `size` is endptr minus the block's own address. */
  class Block {
    var aset: AllocSet
    var prev: Block?
    var next: Block?
    var size: nat

    constructor (aset: AllocSet, prev: Block?, next: Block?, size: nat)
      ensures this.aset == aset && this.prev == prev && this.next == next && this.size == size
    {
      this.aset, this.prev, this.next, this.size := aset, prev, next, size;
    }
  }

  ghost function Sizes(list: seq<Block>): (q: seq<nat>)
    reads list
    ensures |q| == |list|
  {
    seq(|list|, i requires 0 <= i < |list| reads list => list[i].size)
  }

  /** The links of the k-th block of a set's list. */
  ghost predicate Linked(aset: AllocSet, list: seq<Block>, k: nat)
    reads list
    requires k < |list|
  {
    && list[k].aset == aset
    && list[k].prev == (if k == 0 then null else list[k - 1])
    && list[k].next == (if k + 1 == |list| then null else list[k + 1])
  }

  /** A well-formed doubly linked list that holds each block once. */
  ghost predicate IsList(aset: AllocSet, list: seq<Block>)
    reads list
  {
    && (forall i, j :: 0 <= i < j < |list| ==> list[i] != list[j])
    && (forall k :: 0 <= k < |list| ==> Linked(aset, list, k))
  }

  /** Where AllocSetAlloc puts a new element. */
  function Insert<T>(q: seq<T>, x: T): seq<T> {
    if q == [] then [x] else q[..1] + [x] + q[1..]
  }

  lemma {:induction false} SingletonIsList(aset: AllocSet, block: Block)
    requires block.aset == aset && block.prev == null && block.next == null
    ensures IsList(aset, [block])
  {
  }

  lemma {:induction false} AddInWord(sum: nat, v: nat)
    ensures (sum % WORD + v) % WORD == (sum + v) % WORD
  {
  }

  lemma {:induction false} SubtractInWord(sum: nat, gone: nat, v: nat)
    requires gone <= sum
    ensures (sum % WORD + v - gone) % WORD == (sum + v - gone) % WORD
  {
  }

  class AllocSet {
    var blocks: Block?
    var memAllocated: nat
    ghost var list: seq<Block>

    ghost predicate Headed()
      reads this, list
    {
      blocks == (if list == [] then null else list[0]) && IsList(this, list)
    }

    /** The blocks form one doubly linked list, each live block once, and the byte count is
        the sum of the block sizes (in 64 bits). */
    ghost predicate Valid()
      reads this, list
    {
      Headed() && memAllocated == Sum(Sizes(list)) % WORD
    }

    constructor ()
      ensures Valid() && list == []
    {
      blocks, memAllocated, list := null, 0, [];
    }

    /** Links a new block behind the head of the list. */
    method LinkBehindHead(block: Block)
      requires Headed() && list != [] && block !in list && block.aset == this
      requires block.prev == blocks && block.next == blocks.next
      modifies this`list, list, block
      ensures Headed() && list == old(list)[..1] + [block] + old(list)[1..]
      ensures Sizes(list) == old(Sizes(list))[..1] + [old(block.size)] + old(Sizes(list))[1..]
    {
      assert Linked(this, list, 0) && (|list| > 1 ==> Linked(this, list, 1));
      if block.next != null {
        block.next.prev := block;
      }
      blocks.next := block;
      list := list[..1] + [block] + list[1..];
      forall j | 0 <= j < |list| ensures Linked(this, list, j) {
        assert j == 0 || j == 1 || old(Linked(this, list, j - 1));
      }
    }

    /** Takes the k-th block out of the list. */
    method Unlink(block: Block, ghost k: nat)
      requires Headed() && k < |list| && list[k] == block
      modifies this`blocks, this`list, list
      ensures Headed() && list == old(list)[..k] + old(list)[k + 1..]
      ensures Sizes(list) == old(Sizes(list))[..k] + old(Sizes(list))[k + 1..]
    {
      assert Linked(this, list, k);
      if block.prev != null {
        block.prev.next := block.next;
      } else {
        blocks := block.next;
      }
      if block.next != null {
        block.next.prev := block.prev;
      }
      list := list[..k] + list[k + 1..];
      forall j | 0 <= j < |list| ensures Linked(this, list, j) {
        assert if j < k then old(Linked(this, list, j)) else old(Linked(this, list, j + 1));
      }
      forall j | 0 <= j < |list| ensures Sizes(list)[j] == old(Sizes(list))[if j < k then j else j + 1] {
      }
    }

    /** Puts a copy of the k-th block in its place. */
    method Relink(moved: Block, ghost k: nat)
      requires Headed() && k < |list| && moved !in list
      requires moved.aset == this && moved.prev == list[k].prev && moved.next == list[k].next
      modifies this`blocks, this`list, list, moved
      ensures Headed() && list == old(list)[k := moved]
      ensures Sizes(list) == old(Sizes(list))[k := old(moved.size)]
    {
      assert Linked(this, list, k);
      if moved.prev != null {
        moved.prev.next := moved;
      } else {
        blocks := moved;
      }
      if moved.next != null {
        moved.next.prev := moved;
      }
      list := list[k := moved];
      forall j | 0 <= j < |list| ensures Linked(this, list, j) {
        assert old(Linked(this, list, j));
      }
    }

    /** The k-th block grows or shrinks where it is. */
    method Resize(block: Block, size: nat, ghost k: nat)
      requires Headed() && k < |list| && list[k] == block
      modifies block`size
      ensures Headed() && Sizes(list) == old(Sizes(list))[k := size]
    {
      block.size := size;
      forall j | 0 <= j < |list| ensures Linked(this, list, j) {
        assert old(Linked(this, list, j));
      }
    }

    /** AllocSetAlloc: one block per request, behind the head of the list or as its head. */
    method Alloc(size: nat, mallocFails: bool) returns (block: Block?)
      requires Valid()
      modifies this, list
      ensures Valid()
      ensures block == null <==> mallocFails
      ensures block == null ==> list == old(list) && Sizes(list) == old(Sizes(list))
      ensures block != null ==>
                && fresh(block) && list == Insert(old(list), block)
                && Sizes(list) == Insert(old(Sizes(list)), BlockSize(size))
    {
      if mallocFails {
        return null;
      }
      hide Sum, IsList;
      var blksize := BlockSize(size);
      ghost var was := Sizes(list);
      SumInsert(was, if list == [] then 0 else 1, blksize);
      AddInWord(Sum(was), blksize);
      memAllocated := (memAllocated + blksize) % WORD;
      if blocks != null {
        block := new Block(this, blocks, blocks.next, blksize);
        LinkBehindHead(block);
      } else {
        block := new Block(this, null, null, blksize);
        blocks := block;
        list := [block];
        SingletonIsList(this, block);
        assert Sizes(list) == [blksize] == was[..0] + [blksize] + was[0..];
      }
    }

    /** AllocSetFree: takes exactly that block out. */
    method Free(block: Block, ghost k: nat)
      requires Valid() && k < |list| && list[k] == block
      modifies this, list
      ensures Valid() && list == Remove(old(list), k) && Sizes(list) == Remove(old(Sizes(list)), k)
    {
      hide Sum, IsList;
      SumRemove(Sizes(list), k);
      SubtractInWord(Sum(Sizes(list)), block.size, 0);
      memAllocated := (memAllocated - block.size) % WORD;
      Unlink(block, k);
    }

    /** AllocSetRealloc: the block keeps its place, whether or not realloc moved it. */
    method Realloc(block: Block, size: nat, moves: bool, reallocFails: bool, ghost k: nat) returns (result: Block?)
      requires Valid() && k < |list| && list[k] == block
      modifies this, list
      ensures Valid()
      ensures result == null <==> reallocFails
      ensures result == null ==> list == old(list) && Sizes(list) == old(Sizes(list))
      ensures result != null ==>
                && (if moves then fresh(result) else result == block)
                && list == old(list)[k := result] && Sizes(list) == old(Sizes(list))[k := BlockSize(size)]
    {
      if reallocFails {
        return null;
      }
      assert Linked(this, list, k);
      hide Sum, IsList;
      var oldblksize := block.size;
      var newblksize := BlockSize(size);
      ghost var was := Sizes(list);
      SumRemove(was, k);
      SumReplace(was, k, newblksize);
      SubtractInWord(Sum(was), oldblksize, newblksize);
      memAllocated := (memAllocated + newblksize - oldblksize) % WORD;
      if moves {
        result := new Block(block.aset, block.prev, block.next, newblksize);
        Relink(result, k);
      } else {
        result := block;
        Resize(result, newblksize, k);
      }
    }
  }

  // -------------------------------------------------------------- whole runs

  /** A request to the set; pfree and repalloc name a live block by its place in the list. */
  datatype Request =
    | Palloc(size: nat, fails: bool)
    | Pfree(k: nat)
    | Repalloc(k: nat, size: nat, moves: bool, fails: bool)

  /** The block sizes after a request; one that names no live block is not made. */
  function After(sizes: seq<nat>, r: Request): seq<nat> {
    match r
    case Palloc(size, fails) => if fails then sizes else Insert(sizes, BlockSize(size))
    case Pfree(k) => if k < |sizes| then Remove(sizes, k) else sizes
    case Repalloc(k, size, moves, fails) => if k < |sizes| && !fails then sizes[k := BlockSize(size)] else sizes
  }

  function AfterAll(rs: seq<Request>): seq<nat> {
    if rs == [] then [] else After(AfterAll(rs[..|rs| - 1]), rs[|rs| - 1])
  }

  /** Any sequence of requests leaves a well-formed list of exactly the live blocks and an exact byte count. */
  method Replay(rs: seq<Request>) returns (aset: AllocSet, held: seq<Block>)
    ensures aset.Valid() && aset.list == held
    ensures Sizes(held) == AfterAll(rs)
    ensures aset.memAllocated == Sum(AfterAll(rs)) % WORD
  {
    aset := new AllocSet();
    held := [];
    for i := 0 to |rs|
      invariant aset.Valid() && aset.list == held && Sizes(held) == AfterAll(rs[..i])
      invariant fresh(aset) && forall j :: 0 <= j < |held| ==> fresh(held[j])
    {
      assert forall b :: b in aset.list ==> fresh(b);
      assert rs[..i + 1][..i] == rs[..i];
      match rs[i]
      case Palloc(size, fails) =>
        var b := aset.Alloc(size, fails);
        if b != null {
          held := Insert(held, b);
        }
      case Pfree(k) =>
        if k < |held| {
          aset.Free(held[k], k);
          held := Remove(held, k);
        }
      case Repalloc(k, size, moves, fails) =>
        if k < |held| {
          var b := aset.Realloc(held[k], size, moves, fails, k);
          if b != null {
            held := held[k := b];
          }
        }
    }
    assert rs[..|rs|] == rs;
  }
}
