/** The arena: a list of blocks from which memory is handed out front to back. */
module Arenas {
  import opened Ids
  import opened Sequences

  const SIZE_MAX: nat := 0xFFFF_FFFF_FFFF_FFFF
  const ALIGNMENT: nat := 16
  const BLOCK_HEADER: nat := 64
  const CLEANUP_NODE: nat := 24
  const SMALLEST_BLOCK: nat := 4096

  type Size = n: nat | n <= 0xFFFF_FFFF_FFFF_FFFF

  type Byte = b: nat | b < 256

  /** An address: a position in the payload of the block with the given place in the list. */
  datatype Ptr = Ptr(block: nat, offset: nat)

  type Memory = Ptr -> Byte

  datatype Block = Block(capacity: nat, used: nat)

  /** A registered callback, and the storage that its registration occupies. */
  datatype Cleanup = Cleanup(node: Ptr, callback: nat)

  datatype Mark = Mark(block: Option<nat>, used: nat, cleanupHead: Option<Ptr>)

  /** Storage that was handed out; size is rounded up to the alignment. */
  datatype Extent = Extent(ptr: Ptr, size: nat)

  /** The list of cleanups starts with the newest. The last three fields are bookkeeping: the
      storage that is handed out and was not released since, in the order of its
      addresses; the callbacks ever registered; and those that ran, in order. */
  datatype State = State(
    blocks: seq<Block>,
    current: nat,
    minBlockSize: nat,
    cleanups: seq<Cleanup>,
    memory: Memory,
    taken: seq<Extent>,
    registered: seq<nat>,
    fired: seq<nat>)
  {
    ghost predicate Shaped() {
      current < |blocks|
    }
  }

  // ---- sizes ----

  /** The next multiple of the alignment, None where it exceeds the type of sizes. */
  function AlignUp(n: nat): (aligned: Option<nat>)
    ensures aligned.Some? <==> n + ALIGNMENT - 1 <= SIZE_MAX
    ensures aligned.Some? ==>
              n <= aligned.value < n + ALIGNMENT && aligned.value % ALIGNMENT == 0 && aligned.value <= SIZE_MAX
  {
    if n > SIZE_MAX - (ALIGNMENT - 1) then None
    else
      var units := (n + (ALIGNMENT - 1)) / ALIGNMENT;
      assert (units * ALIGNMENT) % ALIGNMENT == 0;
      Some(units * ALIGNMENT)
  }

  lemma AlignUpIsIdempotent(n: nat)
    requires AlignUp(n).Some?
    ensures AlignUp(AlignUp(n).value) == AlignUp(n)
  {
  }

  predicate FitsIn(b: Block, size: nat) {
    b.used + size <= SIZE_MAX && b.used + size <= b.capacity
  }

  /** The first block from the given place on with room for the size. */
  function FirstFit(blocks: seq<Block>, from: nat, size: nat): (place: Option<nat>)
    ensures place.Some? ==> from <= place.value < |blocks| && FitsIn(blocks[place.value], size)
    ensures place.Some? ==> forall i :: from <= i < place.value ==> !FitsIn(blocks[i], size)
    ensures place.None? ==> forall i :: from <= i < |blocks| ==> !FitsIn(blocks[i], size)
    decreases |blocks| - from
  {
    if from >= |blocks| then None
    else if FitsIn(blocks[from], size) then Some(from)
    else FirstFit(blocks, from + 1, size)
  }

  /** Twice the current block, but enough for the request and not below the minimum. */
  function NewCapacity(currentCapacity: nat, size: nat, minBlockSize: nat): (capacity: nat)
    ensures capacity >= size && capacity >= minBlockSize
  {
    var doubled := if currentCapacity <= SIZE_MAX / 2 then currentCapacity * 2 else SIZE_MAX;
    var enough := if doubled < size then size else doubled;
    if enough < minBlockSize then minBlockSize else enough
  }

  predicate CanCreate(capacity: nat, mallocOk: bool) {
    BLOCK_HEADER + capacity <= SIZE_MAX && mallocOk
  }

  // ---- the operations, on values ----

  /** Takes storage from the block at the given place, which becomes the current one. */
  function Take(s: State, blocks: seq<Block>, place: nat, size: nat): (State, Option<Ptr>)
    requires place < |blocks|
  {
    var b := blocks[place];
    var ptr := Ptr(place, b.used);
    (s.(blocks := blocks[place := b.(used := b.used + size)],
        current := place,
        taken := s.taken + [Extent(ptr, size)]),
     Some(ptr))
  }

  /** The current block, else the first later block with room, else a new block at the end. */
  function AllocAligned(s: State, size: nat, mallocOk: bool): (State, Option<Ptr>)
    requires s.Shaped()
  {
    if FitsIn(s.blocks[s.current], size) then Take(s, s.blocks, s.current, size)
    else
      match FirstFit(s.blocks, s.current + 1, size)
      case Some(place) => Take(s, s.blocks, place, size)
      case None =>
        var capacity := NewCapacity(s.blocks[s.current].capacity, size, s.minBlockSize);
        if CanCreate(capacity, mallocOk) then Take(s, s.blocks + [Block(capacity, 0)], |s.blocks|, size)
        else (s, None)
  }

  function Alloc(s: State, size: nat, mallocOk: bool): (State, Option<Ptr>)
    requires s.Shaped()
  {
    if size == 0 || AlignUp(size).None? then (s, None)
    else AllocAligned(s, AlignUp(size).value, mallocOk)
  }

  function Copied(m: Memory, to: Ptr, from: Ptr, count: nat): Memory {
    (p: Ptr) =>
      if p.block == to.block && to.offset <= p.offset < to.offset + count
      then m(Ptr(from.block, from.offset + (p.offset - to.offset)))
      else m(p)
  }

  function Resized(taken: seq<Extent>, ptr: Ptr, size: nat): seq<Extent> {
    seq(|taken|, i requires 0 <= i < |taken| => if taken[i].ptr == ptr then Extent(ptr, size) else taken[i])
  }

  /** The bytes from ptr to the end of the used part of its block. */
  function Readable(blocks: seq<Block>, ptr: Ptr): nat {
    if ptr.block < |blocks| && ptr.offset <= blocks[ptr.block].used then blocks[ptr.block].used - ptr.offset else 0
  }

  predicate FitsInPlace(b: Block, place: nat, ptr: Ptr, oldAligned: nat, newAligned: nat) {
    && oldAligned <= b.used
    && ptr == Ptr(place, b.used - oldAligned)
    && newAligned <= b.capacity - (b.used - oldAligned)
  }

  function Min(a: nat, b: nat): nat {
    if a < b then a else b
  }

  function ReallocLast(s: State, ptr: Option<Ptr>, oldSize: nat, newSize: nat, mallocOk: bool): (State, Option<Ptr>)
    requires s.Shaped()
  {
    if ptr.None? then Alloc(s, newSize, mallocOk)
    else if newSize == 0 || AlignUp(oldSize).None? || AlignUp(newSize).None? then (s, None)
    else
      var b, oldAligned, newAligned := s.blocks[s.current], AlignUp(oldSize).value, AlignUp(newSize).value;
      if FitsInPlace(b, s.current, ptr.value, oldAligned, newAligned) then
        (s.(blocks := s.blocks[s.current := b.(used := b.used - oldAligned + newAligned)],
            taken := Resized(s.taken, ptr.value, newAligned)),
         ptr)
      else Relocate(s, ptr.value, oldSize, newSize, newAligned, mallocOk)
  }

  /** Storage somewhere else, with a copy of what can be read of the old. */
  function Relocate(s: State, ptr: Ptr, oldSize: nat, newSize: nat, newAligned: nat, mallocOk: bool): (State, Option<Ptr>)
    requires s.Shaped()
  {
    var (s', moved) := AllocAligned(s, newAligned, mallocOk);
    if moved.None? then (s', None)
    else
      var count := Min(Min(oldSize, newSize), Readable(s'.blocks, ptr));
      (s'.(memory := Copied(s'.memory, moved.value, ptr, count)), moved)
  }

  function Register(s: State, cleanup: Cleanup): State {
    s.(cleanups := [cleanup] + s.cleanups, registered := s.registered + [cleanup.callback])
  }

  function OnDestroy(s: State, callback: nat, mallocOk: bool): (State, bool)
    requires s.Shaped()
  {
    var (s', node) := Alloc(s, CLEANUP_NODE, mallocOk);
    if node.None? then (s', false) else (Register(s', Cleanup(node.value, callback)), true)
  }

  function MarkOf(s: State): Mark
    requires s.Shaped()
  {
    Mark(Some(s.current), s.blocks[s.current].used, if s.cleanups == [] then None else Some(s.cleanups[0].node))
  }

  /** The number of cleanups in front of the one whose node is the stop. */
  function CountUntil(cleanups: seq<Cleanup>, stop: Option<Ptr>): (n: nat)
    ensures n <= |cleanups|
    ensures n < |cleanups| ==> stop == Some(cleanups[n].node)
    ensures forall i :: 0 <= i < n ==> stop != Some(cleanups[i].node)
  {
    if cleanups == [] || stop == Some(cleanups[0].node) then 0 else 1 + CountUntil(cleanups[1..], stop)
  }

  function Callbacks(cleanups: seq<Cleanup>): (callbacks: seq<nat>)
    ensures |callbacks| == |cleanups|
    ensures forall i :: 0 <= i < |callbacks| ==> callbacks[i] == cleanups[i].callback
  {
    seq(|cleanups|, i requires 0 <= i < |cleanups| => cleanups[i].callback)
  }

  function RunCleanups(s: State, count: nat): State
    requires count <= |s.cleanups|
  {
    s.(cleanups := s.cleanups[count..], fired := s.fired + Callbacks(s.cleanups[..count]))
  }

  /** The blocks of the list with the used part of those from the given place on set to zero. */
  function ClearedFrom(blocks: seq<Block>, place: nat): (cleared: seq<Block>)
    ensures |cleared| == |blocks|
  {
    seq(|blocks|, i requires 0 <= i < |blocks| => if i < place then blocks[i] else blocks[i].(used := 0))
  }

  function Reset(s: State): State {
    RunCleanups(s, |s.cleanups|).(blocks := ClearedFrom(s.blocks, 0), current := 0, taken := [])
  }

  /** The extent ends at or before the position used of the given block. */
  predicate EndsBy(e: Extent, block: nat, used: nat) {
    e.ptr.block < block || (e.ptr.block == block && e.ptr.offset + e.size <= used)
  }

  /** The extents below a position; they come first. */
  function Below(taken: seq<Extent>, block: nat, used: nat): (kept: seq<Extent>)
    ensures |kept| <= |taken| && kept == taken[..|kept|]
    ensures forall e :: e in kept ==> EndsBy(e, block, used) && e in taken
  {
    if taken == [] || !EndsBy(taken[0], block, used) then []
    else [taken[0]] + Below(taken[1..], block, used)
  }

  predicate ValidMark(s: State, m: Mark) {
    m.block.Some? && m.block.value < |s.blocks| && m.used <= s.blocks[m.block.value].capacity
  }

  function Rewind(s: State, m: Mark): (r: State)
    ensures s.Shaped() ==> r.Shaped()
  {
    var s' := RunCleanups(s, CountUntil(s.cleanups, m.cleanupHead));
    if !ValidMark(s, m) then Reset(s')
    else
      var place := m.block.value;
      s'.(blocks := ClearedFrom(s.blocks[place := s.blocks[place].(used := m.used)], place + 1),
          current := place,
          taken := Below(s.taken, place, m.used))
  }

  function SumUsed(blocks: seq<Block>): nat {
    if blocks == [] then 0 else blocks[0].used + SumUsed(blocks[1..])
  }

  // ---- the invariant ----

  ghost predicate GoodBlocks(blocks: seq<Block>, current: nat) {
    && current < |blocks|
    && (forall i :: 0 <= i < |blocks| ==>
          && blocks[i].used <= blocks[i].capacity <= SIZE_MAX - BLOCK_HEADER
          && blocks[i].used % ALIGNMENT == 0
          && (i > current ==> blocks[i].used == 0))
  }

  predicate Precedes(a: Extent, b: Extent) {
    EndsBy(a, b.ptr.block, b.ptr.offset)
  }

  /** Each extent is aligned and inside the used part of a block up to the current one; each
      ends before the next begins. */
  ghost predicate GoodTaken(taken: seq<Extent>, blocks: seq<Block>, current: nat)
    requires current < |blocks|
  {
    && (forall i :: 0 <= i < |taken| ==>
          && taken[i].ptr.block <= current
          && taken[i].ptr.offset % ALIGNMENT == 0 && taken[i].size % ALIGNMENT == 0 && taken[i].size > 0
          && taken[i].ptr.offset + taken[i].size <= blocks[taken[i].ptr.block].used)
    && (forall i, j :: 0 <= i < j < |taken| ==> Precedes(taken[i], taken[j]))
  }

  /** What a registration occupies: a node, rounded up. */
  function NodeExtent(node: Ptr): Extent {
    Extent(node, 32)
  }

  /** Each registration occupies storage of its own, the newest behind the others. */
  ghost predicate GoodCleanups(cleanups: seq<Cleanup>, taken: seq<Extent>) {
    && (forall i :: 0 <= i < |cleanups| ==> NodeExtent(cleanups[i].node) in taken)
    && (forall i, j :: 0 <= i < j < |cleanups| ==> Precedes(NodeExtent(cleanups[j].node), NodeExtent(cleanups[i].node)))
  }

  /** Every callback ever registered either waits or ran once. */
  ghost predicate Conserved(s: State) {
    multiset(s.registered) == multiset(s.fired) + multiset(Callbacks(s.cleanups))
  }

  ghost predicate Inv(s: State) {
    && GoodBlocks(s.blocks, s.current)
    && GoodTaken(s.taken, s.blocks, s.current)
    && GoodCleanups(s.cleanups, s.taken)
  }

  ghost predicate Overlap(a: Extent, b: Extent) {
    && a.ptr.block == b.ptr.block
    && a.ptr.offset < b.ptr.offset + b.size
    && b.ptr.offset < a.ptr.offset + a.size
  }

  /** What the invariant is for: no two live allocations share a byte. */
  lemma TakenIsDisjoint(s: State, i: nat, j: nat)
    requires Inv(s) && i < |s.taken| && j < |s.taken| && i != j
    ensures !Overlap(s.taken[i], s.taken[j])
    ensures s.taken[i].ptr.block < |s.blocks|
    ensures s.taken[i].ptr.offset + s.taken[i].size <= s.blocks[s.taken[i].ptr.block].used
    ensures s.blocks[s.taken[i].ptr.block].used <= s.blocks[s.taken[i].ptr.block].capacity
    ensures s.taken[i].ptr.offset % ALIGNMENT == 0
  {
    if i < j {
      assert Precedes(s.taken[i], s.taken[j]);
    } else {
      assert Precedes(s.taken[j], s.taken[i]);
    }
  }

  /** The arena that arena_create makes. */
  function Created(initialCapacity: nat, memory: Memory): State {
    var size := if initialCapacity < SMALLEST_BLOCK then SMALLEST_BLOCK else initialCapacity;
    State([Block(size, 0)], 0, size, [], memory, [], [], [])
  }

  lemma CreatedHasInv(initialCapacity: nat, memory: Memory)
    requires initialCapacity + BLOCK_HEADER <= SIZE_MAX
    ensures Inv(Created(initialCapacity, memory)) && Conserved(Created(initialCapacity, memory))
  {
  }

  // ---- every operation keeps the invariant ----

  lemma TakeKeepsBlocks(blocks: seq<Block>, current: nat, place: nat, size: nat)
    requires GoodBlocks(blocks, current) && current <= place < |blocks|
    requires FitsIn(blocks[place], size) && size % ALIGNMENT == 0
    ensures GoodBlocks(blocks[place := blocks[place].(used := blocks[place].used + size)], place)
  {
  }

  lemma TakeKeepsTaken(taken: seq<Extent>, blocks: seq<Block>, current: nat, place: nat, size: nat)
    requires GoodBlocks(blocks, current) && GoodTaken(taken, blocks, current) && current <= place < |blocks|
    requires FitsIn(blocks[place], size) && size % ALIGNMENT == 0 && size > 0
    ensures GoodTaken(taken + [Extent(Ptr(place, blocks[place].used), size)],
                      blocks[place := blocks[place].(used := blocks[place].used + size)], place)
  {
    var e := Extent(Ptr(place, blocks[place].used), size);
    forall i | 0 <= i < |taken| ensures Precedes(taken[i], e) {
    }
  }

  lemma MoreTakenKeepsCleanups(cleanups: seq<Cleanup>, taken: seq<Extent>, e: Extent)
    requires GoodCleanups(cleanups, taken)
    ensures GoodCleanups(cleanups, taken + [e])
  {
  }

  lemma TakeKeepsInv(s: State, blocks: seq<Block>, place: nat, size: nat)
    requires Inv(s) && GoodBlocks(blocks, s.current) && GoodTaken(s.taken, blocks, s.current)
    requires s.current <= place < |blocks| && FitsIn(blocks[place], size) && size % ALIGNMENT == 0 && size > 0
    ensures Inv(Take(s, blocks, place, size).0)
  {
    TakeKeepsBlocks(blocks, s.current, place, size);
    TakeKeepsTaken(s.taken, blocks, s.current, place, size);
    MoreTakenKeepsCleanups(s.cleanups, s.taken, Extent(Ptr(place, blocks[place].used), size));
  }

  /** A new block has room: the allocation that made it cannot fail. */
  lemma NewBlockFits(s: State, size: nat, mallocOk: bool)
    requires GoodBlocks(s.blocks, s.current) && size <= SIZE_MAX
    requires CanCreate(NewCapacity(s.blocks[s.current].capacity, size, s.minBlockSize), mallocOk)
    ensures FitsIn(Block(NewCapacity(s.blocks[s.current].capacity, size, s.minBlockSize), 0), size)
  {
  }

  lemma AllocAlignedKeepsInv(s: State, size: nat, mallocOk: bool)
    requires Inv(s) && 0 < size <= SIZE_MAX && size % ALIGNMENT == 0
    ensures Inv(AllocAligned(s, size, mallocOk).0)
  {
    if FitsIn(s.blocks[s.current], size) {
      TakeKeepsInv(s, s.blocks, s.current, size);
    } else if FirstFit(s.blocks, s.current + 1, size).Some? {
      TakeKeepsInv(s, s.blocks, FirstFit(s.blocks, s.current + 1, size).value, size);
    } else {
      var capacity := NewCapacity(s.blocks[s.current].capacity, size, s.minBlockSize);
      if CanCreate(capacity, mallocOk) {
        TakeKeepsInv(s, s.blocks + [Block(capacity, 0)], |s.blocks|, size);
      }
    }
  }

  /** A successful allocation hands out an extent behind all others and touches no byte. */
  lemma AllocAlignedAppends(s: State, size: nat, mallocOk: bool)
    requires s.Shaped()
    ensures var (s', ptr) := AllocAligned(s, size, mallocOk);
      && s'.memory == s.memory && s'.cleanups == s.cleanups
      && s'.registered == s.registered && s'.fired == s.fired && s'.minBlockSize == s.minBlockSize
      && (ptr.None? ==> s' == s)
      && (ptr.Some? ==> s'.taken == s.taken + [Extent(ptr.value, size)])
  {
  }

  lemma AllocKeepsCleanupList(s: State, size: nat, mallocOk: bool)
    requires s.Shaped()
    ensures var (s', ptr) := Alloc(s, size, mallocOk);
      s'.cleanups == s.cleanups && s'.fired == s.fired && (ptr.None? ==> s' == s)
  {
    if AlignUp(size).Some? {
      AllocAlignedAppends(s, AlignUp(size).value, mallocOk);
    }
  }

  lemma ReallocKeepsCleanupList(s: State, ptr: Option<Ptr>, oldSize: nat, newSize: nat, mallocOk: bool)
    requires s.Shaped()
    ensures var (s', ptr') := ReallocLast(s, ptr, oldSize, newSize, mallocOk);
      s'.cleanups == s.cleanups && s'.fired == s.fired && (ptr'.None? ==> s' == s)
  {
    AllocKeepsCleanupList(s, newSize, mallocOk);
    if AlignUp(newSize).Some? {
      AllocAlignedAppends(s, AlignUp(newSize).value, mallocOk);
    }
  }

  lemma AllocKeepsInv(s: State, size: nat, mallocOk: bool)
    requires Inv(s)
    ensures Inv(Alloc(s, size, mallocOk).0)
  {
    if size > 0 && AlignUp(size).Some? {
      AllocAlignedKeepsInv(s, AlignUp(size).value, mallocOk);
    }
  }

  /** When an allocation is refused. */
  lemma AllocFailsExactlyWhen(s: State, size: nat, mallocOk: bool)
    requires Inv(s)
    ensures Alloc(s, size, mallocOk).1.None? <==>
            || size == 0
            || size + ALIGNMENT - 1 > SIZE_MAX
            || (&& (forall i :: s.current <= i < |s.blocks| ==> !FitsIn(s.blocks[i], AlignUp(size).value))
                && !CanCreate(NewCapacity(s.blocks[s.current].capacity, AlignUp(size).value, s.minBlockSize), mallocOk))
  {
    if size > 0 && AlignUp(size).Some? {
      var aligned := AlignUp(size).value;
      var place := FirstFit(s.blocks, s.current + 1, aligned);
      if place.Some? {
        assert FitsIn(s.blocks[place.value], aligned);
      }
    }
  }

  /** The caller gives a pointer of its own and the size it last asked for; a size of zero is
      what an array shrunk to nothing gives. */
  ghost predicate Owns(s: State, ptr: Ptr, oldSize: nat) {
    && (exists i :: 0 <= i < |s.taken| && s.taken[i].ptr == ptr && (oldSize == 0 || AlignUp(oldSize) == Some(s.taken[i].size)))
    && (forall i :: 0 <= i < |s.cleanups| ==> s.cleanups[i].node != ptr)
  }

  ghost predicate ResizesInPlace(s: State, ptr: Ptr, oldSize: nat, newSize: nat)
    requires s.Shaped()
  {
    && newSize > 0 && AlignUp(oldSize).Some? && AlignUp(newSize).Some?
    && FitsInPlace(s.blocks[s.current], s.current, ptr, AlignUp(oldSize).value, AlignUp(newSize).value)
  }

  lemma OnlyTheLastReachesTheEnd(s: State)
    requires Inv(s)
    ensures forall i :: 0 <= i < |s.taken| - 1 && s.taken[i].ptr.block == s.current ==>
              s.taken[i].ptr.offset + s.taken[i].size < s.blocks[s.current].used
  {
    forall i | 0 <= i < |s.taken| - 1 && s.taken[i].ptr.block == s.current
      ensures s.taken[i].ptr.offset + s.taken[i].size < s.blocks[s.current].used
    {
      assert Precedes(s.taken[i], s.taken[|s.taken| - 1]);
    }
  }

  /** What is resized in place is the last extent handed out, and only it changes. */
  lemma InPlaceIsLast(s: State, ptr: Ptr, oldSize: nat, newSize: nat)
    requires Inv(s) && Owns(s, ptr, oldSize) && ResizesInPlace(s, ptr, oldSize, newSize)
    ensures var n, size := |s.taken|, AlignUp(newSize).value;
      && n > 0
      && s.taken[n - 1] == Extent(ptr, AlignUp(oldSize).value)
      && Resized(s.taken, ptr, size) == s.taken[..n - 1] + [Extent(ptr, size)]
  {
    var n, size := |s.taken|, AlignUp(newSize).value;
    var i :| 0 <= i < n && s.taken[i].ptr == ptr && (oldSize == 0 || AlignUp(oldSize) == Some(s.taken[i].size));
    assert i == n - 1 by {
      OnlyTheLastReachesTheEnd(s);
    }
    forall k | 0 <= k < n - 1 ensures s.taken[k].ptr != ptr {
      assert Precedes(s.taken[k], s.taken[i]);
    }
  }

  lemma ResizeLastKeepsTaken(taken: seq<Extent>, blocks: seq<Block>, current: nat, size: nat)
    requires GoodBlocks(blocks, current) && GoodTaken(taken, blocks, current) && taken != []
    requires var e := taken[|taken| - 1]; e.ptr.block == current && e.ptr.offset + size <= blocks[current].capacity
    requires size > 0 && size % ALIGNMENT == 0
    ensures var e := taken[|taken| - 1];
      var blocks' := blocks[current := blocks[current].(used := e.ptr.offset + size)];
      GoodBlocks(blocks', current) && GoodTaken(taken[..|taken| - 1] + [Extent(e.ptr, size)], blocks', current)
  {
    var n := |taken|;
    var e := taken[n - 1];
    var taken' := taken[..n - 1] + [Extent(e.ptr, size)];
    forall i, j | 0 <= i < j < n ensures Precedes(taken'[i], taken'[j]) {
      assert Precedes(taken[i], taken[j]);
    }
    forall i | 0 <= i < n - 1
      ensures taken'[i] == taken[i] && EndsBy(taken[i], e.ptr.block, e.ptr.offset)
    {
      assert Precedes(taken[i], taken[n - 1]);
    }
  }

  lemma ResizeLastKeepsCleanups(cleanups: seq<Cleanup>, taken: seq<Extent>, size: nat)
    requires GoodCleanups(cleanups, taken) && taken != []
    requires forall i :: 0 <= i < |cleanups| ==> cleanups[i].node != taken[|taken| - 1].ptr
    ensures GoodCleanups(cleanups, taken[..|taken| - 1] + [Extent(taken[|taken| - 1].ptr, size)])
  {
    var n := |taken|;
    var taken' := taken[..n - 1] + [Extent(taken[n - 1].ptr, size)];
    forall i | 0 <= i < |cleanups| ensures NodeExtent(cleanups[i].node) in taken' {
      var k :| 0 <= k < n && taken[k] == NodeExtent(cleanups[i].node);
      assert taken'[k] == taken[k];
    }
  }

  lemma ReallocInPlaceKeepsInv(s: State, ptr: Ptr, oldSize: nat, newSize: nat, mallocOk: bool)
    requires Inv(s) && Owns(s, ptr, oldSize) && ResizesInPlace(s, ptr, oldSize, newSize)
    ensures Inv(ReallocLast(s, Some(ptr), oldSize, newSize, mallocOk).0)
  {
    InPlaceIsLast(s, ptr, oldSize, newSize);
    ResizeLastKeepsTaken(s.taken, s.blocks, s.current, AlignUp(newSize).value);
    ResizeLastKeepsCleanups(s.cleanups, s.taken, AlignUp(newSize).value);
  }

  lemma RelocateKeepsInv(s: State, ptr: Ptr, oldSize: nat, newSize: nat, size: nat, mallocOk: bool)
    requires Inv(s) && 0 < size <= SIZE_MAX && size % ALIGNMENT == 0
    ensures Inv(Relocate(s, ptr, oldSize, newSize, size, mallocOk).0)
  {
    AllocAlignedKeepsInv(s, size, mallocOk);
  }

  lemma ReallocKeepsInv(s: State, ptr: Option<Ptr>, oldSize: nat, newSize: nat, mallocOk: bool)
    requires Inv(s) && (ptr.Some? ==> Owns(s, ptr.value, oldSize))
    ensures Inv(ReallocLast(s, ptr, oldSize, newSize, mallocOk).0)
  {
    if ptr.None? {
      AllocKeepsInv(s, newSize, mallocOk);
    } else if ResizesInPlace(s, ptr.value, oldSize, newSize) {
      ReallocInPlaceKeepsInv(s, ptr.value, oldSize, newSize, mallocOk);
    } else if newSize > 0 && AlignUp(newSize).Some? {
      RelocateKeepsInv(s, ptr.value, oldSize, newSize, AlignUp(newSize).value, mallocOk);
    }
  }

  lemma NewCleanupKeepsCleanups(cleanups: seq<Cleanup>, taken: seq<Extent>, cleanup: Cleanup)
    requires GoodCleanups(cleanups, taken)
    requires forall i :: 0 <= i < |taken| ==> Precedes(taken[i], NodeExtent(cleanup.node))
    ensures GoodCleanups([cleanup] + cleanups, taken + [NodeExtent(cleanup.node)])
  {
    forall j | 0 <= j < |cleanups| ensures Precedes(NodeExtent(cleanups[j].node), NodeExtent(cleanup.node)) {
      var k :| 0 <= k < |taken| && taken[k] == NodeExtent(cleanups[j].node);
      assert Precedes(taken[k], NodeExtent(cleanup.node));
    }
  }

  lemma RegisterKeepsInv(s: State, s1: State, cleanup: Cleanup)
    requires Inv(s) && Inv(s1)
    requires s1.cleanups == s.cleanups && s1.taken == s.taken + [NodeExtent(cleanup.node)]
    ensures Inv(Register(s1, cleanup))
  {
    forall i | 0 <= i < |s.taken| ensures Precedes(s.taken[i], NodeExtent(cleanup.node)) {
      assert s1.taken[i] == s.taken[i] && s1.taken[|s.taken|] == NodeExtent(cleanup.node);
    }
    NewCleanupKeepsCleanups(s.cleanups, s.taken, cleanup);
  }

  lemma OnDestroyKeepsInv(s: State, callback: nat, mallocOk: bool)
    requires Inv(s)
    ensures Inv(OnDestroy(s, callback, mallocOk).0)
  {
    AllocAlignedKeepsInv(s, 32, mallocOk);
    AllocAlignedAppends(s, 32, mallocOk);
    var (s1, node) := AllocAligned(s, 32, mallocOk);
    assert Alloc(s, CLEANUP_NODE, mallocOk) == (s1, node) by {
      assert AlignUp(CLEANUP_NODE) == Some(32);
    }
    if node.Some? {
      RegisterKeepsInv(s, s1, Cleanup(node.value, callback));
    }
  }

  /** What marks know: they are taken where the invariant holds, perhaps long ago. */
  ghost predicate GoodMark(m: Mark) {
    && m.used % ALIGNMENT == 0
    && (m.block.Some? && m.cleanupHead.Some? ==> EndsBy(NodeExtent(m.cleanupHead.value), m.block.value, m.used))
  }

  lemma MarkIsGood(s: State)
    requires Inv(s)
    ensures GoodMark(MarkOf(s)) && ValidMark(s, MarkOf(s))
  {
  }

  lemma {:induction false} BelowKeepsAll(taken: seq<Extent>, e: Extent, block: nat, used: nat)
    requires forall i, j :: 0 <= i < j < |taken| ==> Precedes(taken[i], taken[j])
    requires e in taken && EndsBy(e, block, used)
    ensures e in Below(taken, block, used)
  {
    if e != taken[0] {
      assert e in taken[1..];
      BelowKeepsAll(taken[1..], e, block, used);
      var k :| 0 < k < |taken| && taken[k] == e;
      assert Precedes(taken[0], e);
    }
  }

  lemma RunCleanupsKeepsInv(s: State, count: nat)
    requires Inv(s) && count <= |s.cleanups|
    ensures Inv(RunCleanups(s, count))
  {
  }

  lemma ResetKeepsInv(s: State)
    requires Inv(s)
    ensures Inv(Reset(s))
    ensures Reset(s).cleanups == [] && SumUsed(Reset(s).blocks) == 0
  {
    NothingUsed(Reset(s).blocks);
  }

  lemma {:induction false} NothingUsed(blocks: seq<Block>)
    requires forall i :: 0 <= i < |blocks| ==> blocks[i].used == 0
    ensures SumUsed(blocks) == 0
  {
    if blocks != [] {
      NothingUsed(blocks[1..]);
    }
  }

  lemma RewindKeepsCleanups(s: State, m: Mark)
    requires Inv(s) && GoodMark(m) && m.block.Some?
    ensures GoodCleanups(s.cleanups[CountUntil(s.cleanups, m.cleanupHead)..], Below(s.taken, m.block.value, m.used))
  {
    var n := CountUntil(s.cleanups, m.cleanupHead);
    var kept := Below(s.taken, m.block.value, m.used);
    forall i | n <= i < |s.cleanups| ensures NodeExtent(s.cleanups[i].node) in kept {
      assert i > n ==> Precedes(NodeExtent(s.cleanups[i].node), NodeExtent(s.cleanups[n].node));
      BelowKeepsAll(s.taken, NodeExtent(s.cleanups[i].node), m.block.value, m.used);
    }
  }

  lemma RewindKeepsBlocks(blocks: seq<Block>, current: nat, place: nat, used: nat)
    requires GoodBlocks(blocks, current) && place < |blocks| && used <= blocks[place].capacity && used % ALIGNMENT == 0
    ensures GoodBlocks(ClearedFrom(blocks[place := blocks[place].(used := used)], place + 1), place)
  {
  }

  lemma RewindKeepsTaken(taken: seq<Extent>, blocks: seq<Block>, current: nat, place: nat, used: nat)
    requires GoodBlocks(blocks, current) && GoodTaken(taken, blocks, current) && place < |blocks|
    ensures GoodTaken(Below(taken, place, used),
                      ClearedFrom(blocks[place := blocks[place].(used := used)], place + 1), place)
  {
    var kept := Below(taken, place, used);
    var blocks' := ClearedFrom(blocks[place := blocks[place].(used := used)], place + 1);
    forall i | 0 <= i < |kept| ensures kept[i] == taken[i] && EndsBy(kept[i], place, used) {
      assert kept[i] in kept;
    }
    forall i | 0 <= i < |kept| ensures kept[i].ptr.offset + kept[i].size <= blocks'[kept[i].ptr.block].used {
    }
  }

  lemma ValidRewindKeepsInv(s: State, m: Mark)
    requires Inv(s) && GoodMark(m) && ValidMark(s, m)
    ensures Inv(Rewind(s, m))
  {
    RewindKeepsCleanups(s, m);
    RewindKeepsBlocks(s.blocks, s.current, m.block.value, m.used);
    RewindKeepsTaken(s.taken, s.blocks, s.current, m.block.value, m.used);
  }

  /** Any mark that was ever taken, stale or not, leads back to a state with the invariant. */
  lemma RewindKeepsInv(s: State, m: Mark)
    requires Inv(s) && GoodMark(m)
    ensures Inv(Rewind(s, m))
  {
    if ValidMark(s, m) {
      ValidRewindKeepsInv(s, m);
    } else {
      var n := CountUntil(s.cleanups, m.cleanupHead);
      RunCleanupsKeepsInv(s, n);
      ResetKeepsInv(RunCleanups(s, n));
    }
  }

  // ---- every operation conserves the cleanups ----

  lemma NewCleanupConserves(s: State, cleanup: Cleanup)
    requires Conserved(s)
    ensures Conserved(Register(s, cleanup))
  {
    assert Callbacks([cleanup] + s.cleanups) == [cleanup.callback] + Callbacks(s.cleanups);
  }

  lemma RunCleanupsConserves(s: State, count: nat)
    requires Conserved(s) && count <= |s.cleanups|
    ensures Conserved(RunCleanups(s, count))
  {
    assert Callbacks(s.cleanups) == Callbacks(s.cleanups[..count]) + Callbacks(s.cleanups[count..]);
  }

  lemma AllocConserves(s: State, size: nat, mallocOk: bool)
    requires s.Shaped() && Conserved(s)
    ensures Conserved(Alloc(s, size, mallocOk).0)
  {
    if AlignUp(size).Some? {
      AllocAlignedAppends(s, AlignUp(size).value, mallocOk);
    }
  }

  lemma ReallocConserves(s: State, ptr: Option<Ptr>, oldSize: nat, newSize: nat, mallocOk: bool)
    requires s.Shaped() && Conserved(s)
    ensures Conserved(ReallocLast(s, ptr, oldSize, newSize, mallocOk).0)
  {
    AllocConserves(s, newSize, mallocOk);
    if AlignUp(newSize).Some? {
      AllocAlignedAppends(s, AlignUp(newSize).value, mallocOk);
    }
  }

  lemma OnDestroyConserves(s: State, callback: nat, mallocOk: bool)
    requires s.Shaped() && Conserved(s)
    ensures Conserved(OnDestroy(s, callback, mallocOk).0)
  {
    AllocConserves(s, CLEANUP_NODE, mallocOk);
    var (s', node) := Alloc(s, CLEANUP_NODE, mallocOk);
    if node.Some? {
      NewCleanupConserves(s', Cleanup(node.value, callback));
    }
  }

  lemma ResetConserves(s: State)
    requires Conserved(s)
    ensures Conserved(Reset(s))
  {
    RunCleanupsConserves(s, |s.cleanups|);
  }

  lemma RewindConserves(s: State, m: Mark)
    requires Conserved(s)
    ensures Conserved(Rewind(s, m))
  {
    var n := CountUntil(s.cleanups, m.cleanupHead);
    RunCleanupsConserves(s, n);
    ResetConserves(RunCleanups(s, n));
  }

  // ---- what the definitions come to ----

  /** Where an allocation is put, and how little it takes: in the current block if it has room,
      else in the first later block that has, else in a new block behind all others; at the
      end of the used part, which grows by the rounded size. */
  lemma AllocTakes(s: State, size: nat, mallocOk: bool)
    requires Inv(s) && Alloc(s, size, mallocOk).1.Some?
    ensures var (s', ptr) := Alloc(s, size, mallocOk);
      var aligned, p := AlignUp(size).value, ptr.value;
      && p.block < |s'.blocks| && s'.current == p.block
      && s'.blocks[p.block].used == p.offset + aligned
      && p.offset == (if p.block < |s.blocks| then s.blocks[p.block].used else 0)
      && (s.blocks[s.current].used + aligned <= s.blocks[s.current].capacity <==> p.block == s.current)
      && (p.block > s.current ==>
            && p.block <= |s.blocks|
            && (forall i :: s.current <= i < p.block ==> s.blocks[i].used + aligned > s.blocks[i].capacity))
      && |s'.blocks| == (if p.block == |s.blocks| then |s.blocks| + 1 else |s.blocks|)
      && (forall i :: 0 <= i < |s.blocks| && i != p.block ==> s'.blocks[i] == s.blocks[i])
  {
    var aligned := AlignUp(size).value;
    assert forall i :: 0 <= i < |s.blocks| ==>
      (FitsIn(s.blocks[i], aligned) <==> s.blocks[i].used + aligned <= s.blocks[i].capacity);
  }

  /** A new block is twice the current one, but at least the request and the minimum, and twice
      is cut off where it overflows; its header has to be addressable too. */
  lemma NewBlockSize(currentCapacity: nat, size: nat, minBlockSize: nat, mallocOk: bool)
    ensures var c := NewCapacity(currentCapacity, size, minBlockSize);
      && c >= size && c >= minBlockSize && c >= Min(2 * currentCapacity, SIZE_MAX)
      && (c == size || c == minBlockSize || c == Min(2 * currentCapacity, SIZE_MAX))
      && (CanCreate(c, mallocOk) <==> mallocOk && c <= 0xFFFF_FFFF_FFFF_FFBF)
  {
  }

  /** The last allocation stays where it is whenever its block has room for the new size, and no
      byte moves. */
  lemma LastAllocationStays(s: State, ptr: Ptr, oldSize: nat, newSize: nat, mallocOk: bool)
    requires Inv(s) && newSize > 0 && AlignUp(oldSize).Some? && AlignUp(newSize).Some?
    requires ptr.block == s.current && ptr.offset + AlignUp(oldSize).value == s.blocks[s.current].used
    requires ptr.offset + AlignUp(newSize).value <= s.blocks[s.current].capacity
    ensures var (s', ptr') := ReallocLast(s, Some(ptr), oldSize, newSize, mallocOk);
      && ptr' == Some(ptr) && s'.memory == s.memory && s'.current == s.current
      && s'.blocks == s.blocks[s.current := s.blocks[s.current].(used := ptr.offset + AlignUp(newSize).value)]
      && s'.cleanups == s.cleanups && s'.fired == s.fired && s'.registered == s.registered
  {
  }

  /** Every other allocation is resized exactly if the new size can be allocated anew. */
  lemma ReallocFailsExactlyWhen(s: State, ptr: Option<Ptr>, oldSize: nat, newSize: nat, mallocOk: bool)
    requires Inv(s)
    ensures ReallocLast(s, ptr, oldSize, newSize, mallocOk).1.None? <==>
            || newSize == 0
            || newSize + ALIGNMENT - 1 > SIZE_MAX
            || (ptr.Some? && oldSize + ALIGNMENT - 1 > SIZE_MAX)
            || (&& !(&& ptr.Some? && ptr.value.block == s.current
                     && ptr.value.offset + AlignUp(oldSize).value == s.blocks[s.current].used
                     && ptr.value.offset + AlignUp(newSize).value <= s.blocks[s.current].capacity)
                && Alloc(s, newSize, mallocOk).1.None?)
  {
  }

  /** A registration fails only for want of storage; it goes in front of the others. */
  lemma OnDestroyRegisters(s: State, callback: nat, mallocOk: bool)
    requires s.Shaped()
    ensures var (s', ok) := OnDestroy(s, callback, mallocOk);
      var (placed, node) := Alloc(s, 24, mallocOk);
      && (ok <==> node.Some?)
      && s'.blocks == placed.blocks && s'.fired == s.fired
      && (ok ==> s'.cleanups == [Cleanup(node.value, callback)] + s.cleanups && s'.registered == s.registered + [callback])
      && (!ok ==> s' == s)
  {
    AllocKeepsCleanupList(s, 24, mallocOk);
    if AlignUp(24).Some? {
      AllocAlignedAppends(s, AlignUp(24).value, mallocOk);
    }
  }

  /** A reset runs what waits, newest first, and empties every block; none is given back. */
  lemma ResetMeans(s: State)
    ensures var r := Reset(s);
      && r.fired == s.fired + Callbacks(s.cleanups) && r.cleanups == [] && r.current == 0 && r.taken == []
      && |r.blocks| == |s.blocks|
      && (forall i :: 0 <= i < |s.blocks| ==> r.blocks[i] == Block(s.blocks[i].capacity, 0))
  {
    assert s.cleanups[..|s.cleanups|] == s.cleanups;
  }

  /** A mark of no block of the arena, or beyond the end of its block, is invalid: then
      everything is given up. */
  lemma InvalidMarkResets(s: State, m: Mark)
    requires m.block == None || m.block.value >= |s.blocks| || m.used > s.blocks[m.block.value].capacity
    ensures var r := Rewind(s, m);
      && r.fired == s.fired + Callbacks(s.cleanups) && r.cleanups == [] && r.current == 0
      && |r.blocks| == |s.blocks|
      && (forall i :: 0 <= i < |s.blocks| ==> r.blocks[i] == Block(s.blocks[i].capacity, 0))
  {
    var n := CountUntil(s.cleanups, m.cleanupHead);
    ResetMeans(RunCleanups(s, n));
    AllRunInTwo(s.fired, s.cleanups, n);
  }

  lemma AllRunInTwo(fired: seq<nat>, cleanups: seq<Cleanup>, n: nat)
    requires n <= |cleanups|
    ensures fired + Callbacks(cleanups[..n]) + Callbacks(cleanups[n..]) == fired + Callbacks(cleanups)
  {
    CallbacksInTwo(cleanups, n);
    Assoc(fired, Callbacks(cleanups[..n]), Callbacks(cleanups[n..]));
  }

  lemma CallbacksInTwo(cleanups: seq<Cleanup>, n: nat)
    requires n <= |cleanups|
    ensures Callbacks(cleanups) == Callbacks(cleanups[..n]) + Callbacks(cleanups[n..])
  {
  }

  /** Any other mark brings back its position, even one taken long ago. */
  lemma ValidMarkRewinds(s: State, m: Mark)
    requires m.block.Some? && m.block.value < |s.blocks| && m.used <= s.blocks[m.block.value].capacity
    ensures var r, b := Rewind(s, m), m.block.value;
      && r.current == b && |r.blocks| == |s.blocks|
      && r.blocks[b] == Block(s.blocks[b].capacity, m.used)
      && (forall i :: 0 <= i < b ==> r.blocks[i] == s.blocks[i])
      && (forall i :: b < i < |s.blocks| ==> r.blocks[i] == Block(s.blocks[i].capacity, 0))
  {
  }

  /** The total is the sum over the blocks, wherever the list is cut in two. */
  lemma {:induction false} SumUsedAppend(a: seq<Block>, b: seq<Block>)
    ensures SumUsed(a + b) == SumUsed(a) + SumUsed(b)
  {
    if a == [] {
      assert a + b == b;
    } else {
      assert (a + b)[0] == a[0] && (a + b)[1..] == a[1..] + b;
      SumUsedAppend(a[1..], b);
    }
  }

  lemma SumUsedOfOne(b: Block)
    ensures SumUsed([b]) == b.used
  {
    assert [b][1..] == [];
  }

  /** A new arena is one empty block of the asked size, but not below a page. */
  lemma CreatedMeans(initialCapacity: nat, memory: Memory)
    ensures var s := Created(initialCapacity, memory);
      && s.blocks == [Block(if initialCapacity < 4096 then 4096 else initialCapacity, 0)]
      && s.current == 0 && s.minBlockSize == s.blocks[0].capacity && s.cleanups == [] && s.taken == []
  {
  }
}
