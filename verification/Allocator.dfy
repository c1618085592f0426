// The linear allocator over shared memory. Only the topmost block can be given
// back; the freed rest stays behind as lost bytes.
module Allocator {
  import opened Wrappers

  datatype Block = Block(start: nat, len: nat, live: bool)
  {
    function End(): nat {
      start + len
    }
  }

  /**
   * The two pointers of AllocState and the place where the arena starts, with
   * the history of blocks: those in use, and those freed but not reclaimed.
   */
  datatype Arena = Arena(base: nat, freeBegin: nat, freeEnd: nat, blocks: seq<Block>)

  function Fresh(shmem: nat, size: nat): Arena {
    Arena(shmem, shmem, shmem + size, [])
  }

  /** The blocks cover base..top without gap or overlap, in order, none of them empty. */
  predicate Tiled(base: nat, blocks: seq<Block>, top: nat) {
    if blocks == [] then base == top
    else
      var last := blocks[|blocks| - 1];
      last.len > 0 && last.End() == top && Tiled(base, blocks[..|blocks| - 1], last.start)
  }

  predicate Sane(a: Arena) {
    Tiled(a.base, a.blocks, a.freeBegin) && a.freeBegin <= a.freeEnd
  }

  function Bytes(blocks: seq<Block>, live: bool): nat {
    if blocks == [] then 0
    else
      var last := blocks[|blocks| - 1];
      Bytes(blocks[..|blocks| - 1], live) + (if last.live == live then last.len else 0)
  }

  function LiveBytes(a: Arena): nat {
    Bytes(a.blocks, true)
  }

  function LeakedBytes(a: Arena): nat {
    Bytes(a.blocks, false)
  }

  // ---------------------------------------------------------------- the operations on values

  /** allocate: the test that decides on bad_alloc. */
  predicate Fits(a: Arena, bytes: nat) {
    a.freeBegin + bytes <= a.freeEnd
  }

  function Allocated(a: Arena, bytes: nat): Arena {
    if !Fits(a, bytes) then a
    else a.(freeBegin := a.freeBegin + bytes, blocks := a.blocks + [Block(a.freeBegin, bytes, true)])
  }

  predicate OnTop(a: Arena, i: nat)
    requires i < |a.blocks|
  {
    a.blocks[i].End() == a.freeBegin
  }

  /** deallocate of the i-th block, with the size it was allocated with. */
  function Freed(a: Arena, i: nat): Arena
    requires i < |a.blocks|
  {
    if OnTop(a, i) then a.(freeBegin := a.blocks[i].start, blocks := a.blocks[..i] + a.blocks[i + 1..])
    else a.(blocks := a.blocks[i := a.blocks[i].(live := false)])
  }

  // ---------------------------------------------------------------- what tiling means

  lemma {:induction false} TileAt(base: nat, blocks: seq<Block>, top: nat, i: nat)
    requires Tiled(base, blocks, top) && i < |blocks|
    ensures base <= blocks[i].start < blocks[i].End() <= top && base <= top
    ensures i + 1 < |blocks| ==> blocks[i].End() == blocks[i + 1].start
    ensures blocks[i].End() == top <==> i == |blocks| - 1
    ensures Tiled(base, blocks[..i], blocks[i].start)
    decreases |blocks|
  {
    var front := blocks[..|blocks| - 1];
    var last := blocks[|blocks| - 1];
    if front != [] {
      TileAt(base, front, last.start, |front| - 1);
    }
    if i < |front| {
      TileAt(base, front, last.start, i);
      assert front[..i] == blocks[..i];
    }
  }

  lemma {:induction false} TilesApart(base: nat, blocks: seq<Block>, top: nat, i: nat, j: nat)
    requires Tiled(base, blocks, top) && i < j < |blocks|
    ensures blocks[i].End() <= blocks[j].start
    decreases j
  {
    TileAt(base, blocks, top, j - 1);
    if i < j - 1 {
      TilesApart(base, blocks, top, i, j - 1);
    }
  }

  lemma {:induction false} TilesSum(base: nat, blocks: seq<Block>, top: nat)
    requires Tiled(base, blocks, top)
    ensures top == base + Bytes(blocks, true) + Bytes(blocks, false)
    decreases |blocks|
  {
    if blocks != [] {
      TilesSum(base, blocks[..|blocks| - 1], blocks[|blocks| - 1].start);
    }
  }

  /** Whether blocks are live does not matter for where they are. */
  lemma {:induction false} TiledAfterLoss(base: nat, blocks: seq<Block>, top: nat, i: nat)
    requires Tiled(base, blocks, top) && i < |blocks| && blocks[i].live
    ensures var lost := blocks[i := blocks[i].(live := false)];
            && Tiled(base, lost, top)
            && Bytes(lost, true) == Bytes(blocks, true) - blocks[i].len
            && Bytes(lost, false) == Bytes(blocks, false) + blocks[i].len
    decreases |blocks|
  {
    var lost := blocks[i := blocks[i].(live := false)];
    var front := blocks[..|blocks| - 1];
    if i < |front| {
      assert lost[..|blocks| - 1] == front[i := blocks[i].(live := false)];
      TiledAfterLoss(base, front, blocks[|blocks| - 1].start, i);
    } else {
      assert lost[..|blocks| - 1] == front;
    }
  }

  // ---------------------------------------------------------------- runs

  datatype Action = Allocate(bytes: nat) | Free(index: nat)

  /** Allocations are not empty, and only blocks in use are freed. */
  predicate Allowed(a: Arena, act: Action) {
    match act
    case Allocate(bytes) => bytes > 0
    case Free(i) => i < |a.blocks| && a.blocks[i].live
  }

  function Acted(a: Arena, act: Action): Arena
    requires Allowed(a, act)
  {
    match act
    case Allocate(bytes) => Allocated(a, bytes)
    case Free(i) => Freed(a, i)
  }

  predicate AllowedRun(a: Arena, acts: seq<Action>)
    decreases |acts|
  {
    acts != [] ==> Allowed(a, acts[0]) && AllowedRun(Acted(a, acts[0]), acts[1..])
  }

  function After(a: Arena, acts: seq<Action>): Arena
    requires AllowedRun(a, acts)
    decreases |acts|
  {
    if acts == [] then a else After(Acted(a, acts[0]), acts[1..])
  }

  /** Every free on the way hits the top block. */
  predicate OnlyTopFrees(a: Arena, acts: seq<Action>)
    requires AllowedRun(a, acts)
    decreases |acts|
  {
    acts != [] ==> (acts[0].Free? ==> OnTop(a, acts[0].index)) && OnlyTopFrees(Acted(a, acts[0]), acts[1..])
  }

  /** One step keeps the tiling, loses bytes exactly when a free misses the top, and never regains any. */
  lemma ActKeepsSane(a: Arena, act: Action)
    requires Sane(a) && Allowed(a, act)
    ensures var r := Acted(a, act);
            && Sane(r) && r.base == a.base && r.freeEnd == a.freeEnd
            && LeakedBytes(a) <= LeakedBytes(r)
            && (LeakedBytes(a) == LeakedBytes(r) <==> !(act.Free? && !OnTop(a, act.index)))
  {
    var r := Acted(a, act);
    match act
    case Allocate(bytes) =>
      if Fits(a, bytes) {
        assert r.blocks[..|r.blocks| - 1] == a.blocks;
      }
    case Free(i) =>
      TileAt(a.base, a.blocks, a.freeBegin, i);
      if OnTop(a, i) {
        assert a.blocks[..i] + a.blocks[i + 1..] == a.blocks[..|a.blocks| - 1];
      } else {
        TiledAfterLoss(a.base, a.blocks, a.freeBegin, i);
      }
  }

  /** Leak law: in every run the used stretch is live plus leaked bytes, and leaked bytes never decrease. */
  lemma {:induction false} LeakLaw(a: Arena, acts: seq<Action>)
    requires Sane(a) && AllowedRun(a, acts)
    ensures var r := After(a, acts);
            && Sane(r) && r.base == a.base && r.freeEnd == a.freeEnd
            && r.freeBegin - r.base == LiveBytes(r) + LeakedBytes(r)
            && LeakedBytes(a) <= LeakedBytes(r)
            && (LeakedBytes(a) == LeakedBytes(r) <==> OnlyTopFrees(a, acts))
    decreases |acts|
  {
    if acts == [] {
      TilesSum(a.base, a.blocks, a.freeBegin);
    } else {
      ActKeepsSane(a, acts[0]);
      LeakLaw(Acted(a, acts[0]), acts[1..]);
    }
  }

  /** The pointer is back at the start exactly when nothing is in use and every free hit the top. */
  lemma BackToBase(shmem: nat, size: nat, acts: seq<Action>)
    requires AllowedRun(Fresh(shmem, size), acts)
    ensures var r := After(Fresh(shmem, size), acts);
            r.freeBegin == shmem <==> LiveBytes(r) == 0 && OnlyTopFrees(Fresh(shmem, size), acts)
  {
    LeakLaw(Fresh(shmem, size), acts);
  }

  /** Safety: in every run each block lies below the pointer, inside the arena, and apart from all others. */
  lemma RunIsSafe(shmem: nat, size: nat, acts: seq<Action>, i: nat)
    requires AllowedRun(Fresh(shmem, size), acts) && i < |After(Fresh(shmem, size), acts).blocks|
    ensures var r := After(Fresh(shmem, size), acts);
            && shmem <= r.blocks[i].start && r.blocks[i].End() <= r.freeBegin <= r.freeEnd == shmem + size
            && forall j | i < j < |r.blocks| :: r.blocks[i].End() <= r.blocks[j].start
  {
    var r := After(Fresh(shmem, size), acts);
    LeakLaw(Fresh(shmem, size), acts);
    TileAt(r.base, r.blocks, r.freeBegin, i);
    forall j | i < j < |r.blocks| ensures r.blocks[i].End() <= r.blocks[j].start {
      TilesApart(r.base, r.blocks, r.freeBegin, i, j);
    }
  }

  /** An allocation succeeds exactly if what is in use and what is lost leave room for it. */
  lemma SucceedsExactly(shmem: nat, size: nat, acts: seq<Action>, bytes: nat)
    requires AllowedRun(Fresh(shmem, size), acts) && bytes > 0
    ensures var r := After(Fresh(shmem, size), acts);
            Allocated(r, bytes)
            == if LiveBytes(r) + LeakedBytes(r) + bytes <= size
               then r.(freeBegin := r.freeBegin + bytes, blocks := r.blocks + [Block(r.freeBegin, bytes, true)])
               else r
  {
    LeakLaw(Fresh(shmem, size), acts);
  }

  /** A free moves the pointer exactly if it is given the topmost block, and then back to where that block starts. */
  lemma FreeExactly(shmem: nat, size: nat, acts: seq<Action>, i: nat)
    requires AllowedRun(Fresh(shmem, size), acts) && i < |After(Fresh(shmem, size), acts).blocks|
    ensures var r := After(Fresh(shmem, size), acts);
            if i == |r.blocks| - 1
            then Freed(r, i) == r.(freeBegin := r.blocks[i].start, blocks := r.blocks[..i])
            else Freed(r, i) == r.(blocks := r.blocks[i := r.blocks[i].(live := false)])
  {
    var r := After(Fresh(shmem, size), acts);
    LeakLaw(Fresh(shmem, size), acts);
    TileAt(r.base, r.blocks, r.freeBegin, i);
    assert i == |r.blocks| - 1 ==> r.blocks[..i] + r.blocks[i + 1..] == r.blocks[..i];
  }

  /** So a block that is freed before anything else happens leaves no trace. */
  lemma FreeUndoesAllocate(shmem: nat, size: nat, acts: seq<Action>, bytes: nat)
    requires AllowedRun(Fresh(shmem, size), acts) && bytes > 0
    requires var r := After(Fresh(shmem, size), acts); LiveBytes(r) + LeakedBytes(r) + bytes <= size
    ensures var r := After(Fresh(shmem, size), acts);
            |r.blocks| < |Allocated(r, bytes).blocks| && Freed(Allocated(r, bytes), |r.blocks|) == r
  {
    SucceedsExactly(shmem, size, acts, bytes);
    var r := After(Fresh(shmem, size), acts);
    var q := Allocated(r, bytes);
    assert q.blocks[..|r.blocks|] + q.blocks[|r.blocks| + 1..] == r.blocks;
  }

  /** A block freed out of order stays where it is for good: the pointer never falls below its end. */
  lemma {:induction false} LostForever(a: Arena, acts: seq<Action>, i: nat)
    requires Sane(a) && AllowedRun(a, acts) && i < |a.blocks| && !a.blocks[i].live
    ensures var r := After(a, acts);
            i < |r.blocks| && r.blocks[i] == a.blocks[i] && a.blocks[i].End() <= r.freeBegin
    decreases |acts|
  {
    TileAt(a.base, a.blocks, a.freeBegin, i);
    if acts != [] {
      ActKeepsSane(a, acts[0]);
      if acts[0].Free? {
        TileAt(a.base, a.blocks, a.freeBegin, acts[0].index);
      }
      LostForever(Acted(a, acts[0]), acts[1..], i);
    }
  }

  // ---------------------------------------------------------------- the objects

  class AllocState {
    var freeMemBegin: nat
    var freeMemEnd: nat

    constructor (shmem: nat, size: nat)
      ensures freeMemBegin == shmem && freeMemEnd == shmem + size
    {
      freeMemBegin, freeMemEnd := shmem, shmem + size;
    }

    /** The pointers are those of the arena. */
    ghost predicate Is(a: Arena)
      reads this
    {
      freeMemBegin == a.freeBegin && freeMemEnd == a.freeEnd
    }
  }

  /** An allocator of some element type; all of them share the state. */
  class Allocator {
    const state: AllocState
    const elementSize: nat

    constructor (state: AllocState, elementSize: nat)
      ensures this.state == state && this.elementSize == elementSize
    {
      this.state, this.elementSize := state, elementSize;
    }

    /** None stands for bad_alloc. */
    method Allocate(n: nat, ghost a: Arena) returns (p: Option<nat>)
      requires state.Is(a)
      modifies state
      ensures state.Is(Allocated(a, n * elementSize))
      ensures p == if Fits(a, n * elementSize) then Some(a.freeBegin) else None
    {
      if state.freeMemBegin + n * elementSize > state.freeMemEnd {
        return None;
      }
      var begin := state.freeMemBegin;
      state.freeMemBegin := state.freeMemBegin + elementSize * n;
      return Some(begin);
    }

    method Deallocate(p: nat, n: nat, ghost a: Arena, ghost i: nat)
      requires state.Is(a) && i < |a.blocks| && a.blocks[i].start == p && a.blocks[i].len == elementSize * n
      modifies state
      ensures state.Is(Freed(a, i))
    {
      if p + elementSize * n == state.freeMemBegin {
        state.freeMemBegin := p;
      }
    }
  }

  // ---------------------------------------------------------------- the mapping around the arena

  /** sizeof of the objects that are placed in front of the arena. */
  datatype Sizes = Sizes(semaphore: nat, semT: nat, allocState: nat, alloc: nat, mapT: nat)
  {
    predicate Positive() {
      semaphore > 0 && semT > 0 && allocState > 0 && alloc > 0 && mapT > 0
    }
  }

  /** What Map's constructor puts into a mapping at address m, in order; the arena comes last. */
  function Placed(m: nat, z: Sizes, size: nat): seq<Block> {
    var b := m + z.semaphore + z.semT;
    [Block(m, z.semaphore, true), Block(m + z.semaphore, z.semT, true), Block(b, z.allocState, true),
     Block(b + z.allocState, z.alloc, true), Block(b + z.allocState + z.alloc, z.mapT, true),
     Block(b + z.allocState + z.alloc + z.mapT, size, true)]
  }

  /** SharedMemory, with the block that mmap returned and the one that munmap is called with. */
  class SharedMemory {
    var memBegin: nat
    var memEnd: nat
    var creator: nat
    var unmapped: Option<Block>
    ghost var mapping: Block

    /** The usable memory is the mapping behind the semaphore, until it is given back. */
    ghost predicate Valid(z: Sizes)
      reads this
    {
      memBegin == mapping.start + z.semaphore + z.semT && memEnd == mapping.End() && memBegin <= memEnd
    }

    /** mapped is what mmap returned; semOk is whether sem_init worked, else the mapping is given back. */
    constructor (size: nat, mapped: nat, z: Sizes, pid: nat, semOk: bool)
      ensures mapping == Block(mapped, size + z.semaphore + z.semT, true) && creator == pid
      ensures memEnd == mapped + size + z.semaphore + z.semT
      ensures semOk ==> Valid(z) && unmapped == None
      ensures !semOk ==> unmapped == Some(mapping.(live := false))
    {
      var total := size + (z.semaphore + z.semT);
      creator := pid;
      memEnd := mapped + total;
      mapping := Block(mapped, total, true);
      if semOk {
        memBegin := mapped + (z.semaphore + z.semT);
        unmapped := None;
      } else {
        memBegin := mapped;
        unmapped := Some(Block(mapped, total, false));
      }
    }

    /** Only the creating process unmaps, and it gives back exactly what it mapped. */
    method Destroy(pid: nat, z: Sizes)
      requires Valid(z)
      modifies this
      ensures mapping == old(mapping) && memEnd == old(memEnd) && creator == old(creator)
      ensures pid != creator ==> Valid(z) && unmapped == old(unmapped)
      ensures pid == creator ==> unmapped == Some(mapping.(live := false))
    {
      if creator != pid {
        return;
      }
      memBegin := memBegin - (z.semaphore + z.semT);
      unmapped := Some(Block(memBegin, memEnd - memBegin, false));
    }
  }

  /** Map(size): the arena handed to AllocState. */
  method PlaceMap(size: nat, mapped: nat, z: Sizes, pid: nat) returns (mem: SharedMemory, state: AllocState)
    ensures fresh(mem) && fresh(state) && mem.Valid(z) && mem.creator == pid
    ensures mem.mapping.start == mapped && mem.memEnd == Placed(mapped, z, size)[5].End()
    ensures state.Is(Fresh(Placed(mapped, z, size)[5].start, size))
  {
    mem := new SharedMemory(size + z.allocState + z.alloc + z.mapT, mapped, z, pid, true);
    state := new AllocState(mem.memBegin + z.allocState + z.alloc + z.mapT, size);
  }

  /**
   * The five header objects follow each other without overlap or gap up to the
   * arena, which ends where the mapping ends. The arena may be empty.
   */
  lemma LayoutTiles(m: nat, z: Sizes, size: nat)
    requires z.Positive()
    ensures var p := Placed(m, z, size);
            && Tiled(m, p[..5], p[5].start)
            && p[0].len == z.semaphore && p[1].len == z.semT && p[2].len == z.allocState
            && p[3].len == z.alloc && p[4].len == z.mapT && p[5].len == size
            && p[5].End() == m + (size + z.allocState + z.alloc + z.mapT) + (z.semaphore + z.semT)
  {
    var p := Placed(m, z, size);
    assert p[..5][..4] == p[..4] && p[..4][..3] == p[..3] && p[..3][..2] == p[..2] && p[..2][..1] == p[..1];
    assert Tiled(m, p[..1], p[1].start) by { assert p[..1][..0] == []; }
    assert Tiled(m, p[..2], p[2].start);
    assert Tiled(m, p[..3], p[3].start);
    assert Tiled(m, p[..4], p[4].start);
  }

  /** So no block in use ever overlaps a header object or leaves the mapping. */
  lemma BlocksClearOfHeaders(m: nat, z: Sizes, size: nat, acts: seq<Action>, h: nat, i: nat)
    requires z.Positive() && h < 5
    requires AllowedRun(Fresh(Placed(m, z, size)[5].start, size), acts)
    requires i < |After(Fresh(Placed(m, z, size)[5].start, size), acts).blocks|
    ensures var p := Placed(m, z, size);
            var b := After(Fresh(p[5].start, size), acts).blocks[i];
            p[h].End() <= b.start && b.End() <= p[5].End()
  {
    var p := Placed(m, z, size);
    var r := After(Fresh(p[5].start, size), acts);
    LayoutTiles(m, z, size);
    TileAt(m, p[..5], p[5].start, h);
    LeakLaw(Fresh(p[5].start, size), acts);
    TileAt(r.base, r.blocks, r.freeBegin, i);
  }
}
