/** The arena as an object that its methods update in place. */
module ArenaObject {
  import opened Ids
  import opened Arenas

  function Ran(fired: seq<nat>, cleanups: seq<Cleanup>, n: nat): seq<nat>
    requires n <= |cleanups|
  {
    fired + Callbacks(cleanups[..n])
  }

  lemma OneMore(cleanups: seq<Cleanup>, n: nat)
    requires n < |cleanups|
    ensures cleanups[n..][0] == cleanups[n] && cleanups[n..][1..] == cleanups[n + 1..]
    ensures forall fired :: Ran(fired, cleanups, n + 1) == Ran(fired, cleanups, n) + [cleanups[n].callback]
  {
    assert Callbacks(cleanups[..n + 1]) == Callbacks(cleanups[..n]) + [cleanups[n].callback];
  }

  class Arena {
    var blocks: seq<Block>
    var current: nat
    var minBlockSize: nat
    var cleanups: seq<Cleanup>
    var memory: Memory
    var fired: seq<nat>
    ghost var taken: seq<Extent>
    ghost var registered: seq<nat>

    ghost function Abstract(): State
      reads this
    {
      State(blocks, current, minBlockSize, cleanups, memory, taken, registered, fired)
    }

    constructor (size: nat, contents: Memory)
      ensures Abstract() == State([Block(size, 0)], 0, size, [], contents, [], [], [])
    {
      blocks, current, minBlockSize := [Block(size, 0)], 0, size;
      cleanups, memory, fired := [], contents, [];
      taken, registered := [], [];
    }

    /** Rounds the size up again, as every block allocation does. */
    method AllocFromBlock(place: nat, size: Size) returns (ptr: Option<Ptr>)
      requires place < |blocks|
      modifies this`blocks, this`taken
      ensures ptr.None? <==> AlignUp(size).None? || !FitsIn(old(blocks[place]), AlignUp(size).value)
      ensures ptr.None? ==> blocks == old(blocks) && taken == old(taken)
      ensures ptr.Some? ==>
                && ptr.value == Ptr(place, old(blocks[place].used))
                && blocks == old(blocks)[place := old(blocks[place]).(used := old(blocks[place].used) + AlignUp(size).value)]
                && taken == old(taken) + [Extent(ptr.value, AlignUp(size).value)]
    {
      var rounded := AlignUp(size);
      if rounded.None? {
        return None;
      }
      var block := blocks[place];
      if block.used > SIZE_MAX - rounded.value {
        return None;
      }
      var newUsed := block.used + rounded.value;
      if newUsed > block.capacity {
        return None;
      }
      blocks := blocks[place := block.(used := newUsed)];
      taken := taken + [Extent(Ptr(place, block.used), rounded.value)];
      return Some(Ptr(place, block.used));
    }

    method FindReusableBlock(start: nat, size: Size) returns (found: Option<nat>)
      requires start <= |blocks|
      ensures found == FirstFit(blocks, start, size)
    {
      var i := start;
      while i < |blocks|
        invariant start <= i <= |blocks|
        invariant FirstFit(blocks, start, size) == FirstFit(blocks, i, size)
      {
        if blocks[i].used <= SIZE_MAX - size
          && blocks[i].capacity >= size && blocks[i].used + size <= blocks[i].capacity {
          return Some(i);
        }
        i := i + 1;
      }
      return None;
    }

    method Alloc(size: Size, mallocOk: bool) returns (ptr: Option<Ptr>)
      requires Inv(Abstract())
      modifies this`blocks, this`taken, this`current
      ensures (Abstract(), ptr) == Arenas.Alloc(old(Abstract()), size, mallocOk)
      ensures Inv(Abstract())
    {
      AllocKeepsInv(Abstract(), size, mallocOk);
      if size == 0 {
        return None;
      }
      var rounded := AlignUp(size);
      if rounded.None? {
        return None;
      }
      var aligned: Size := rounded.value;
      AlignUpIsIdempotent(size);
      ptr := AllocFromBlock(current, aligned);
      if ptr.Some? {
        return;
      }
      var reusable := FindReusableBlock(current + 1, aligned);
      if reusable.Some? {
        current := reusable.value;
        ptr := AllocFromBlock(current, aligned);
        assert ptr.Some?;
        return;
      }
      var newCapacity := if blocks[current].capacity <= SIZE_MAX / 2 then blocks[current].capacity * 2 else SIZE_MAX;
      if newCapacity < aligned {
        newCapacity := aligned;
      }
      if newCapacity < minBlockSize {
        newCapacity := minBlockSize;
      }
      if !CanCreate(newCapacity, mallocOk) {
        return None;
      }
      NewBlockFits(Abstract(), aligned, mallocOk);
      current := |blocks|;
      blocks := blocks + [Block(newCapacity, 0)];
      ptr := AllocFromBlock(current, aligned);
      // The source asserts this too.
      assert ptr.Some?;
    }

    method FindReadable(ptr: Ptr) returns (readable: nat)
      ensures readable == Readable(blocks, ptr)
    {
      if ptr.block < |blocks| && ptr.offset <= blocks[ptr.block].used {
        return blocks[ptr.block].used - ptr.offset;
      }
      return 0;
    }

    method ReallocLast(ptr: Option<Ptr>, oldSize: Size, newSize: Size, mallocOk: bool) returns (resized: Option<Ptr>)
      requires Inv(Abstract()) && (ptr.Some? ==> Owns(Abstract(), ptr.value, oldSize))
      modifies this`blocks, this`taken, this`current, this`memory
      ensures (Abstract(), resized) == Arenas.ReallocLast(old(Abstract()), ptr, oldSize, newSize, mallocOk)
      ensures Inv(Abstract())
    {
      ReallocKeepsInv(Abstract(), ptr, oldSize, newSize, mallocOk);
      if ptr.None? {
        resized := Alloc(newSize, mallocOk);
        return;
      }
      if newSize == 0 {
        return None;
      }
      var oldRounded, newRounded := AlignUp(oldSize), AlignUp(newSize);
      if oldRounded.None? || newRounded.None? {
        return None;
      }
      var block := blocks[current];
      if oldRounded.value <= block.used && ptr.value == Ptr(current, block.used - oldRounded.value) {
        var available := block.capacity - (block.used - oldRounded.value);
        if newRounded.value <= available {
          blocks := blocks[current := block.(used := block.used - oldRounded.value + newRounded.value)];
          taken := Resized(taken, ptr.value, newRounded.value);
          return ptr;
        }
      }
      resized := Relocate(ptr.value, oldSize, newSize, newRounded.value, mallocOk);
    }

    /** The fallback of ReallocLast: allocate anew and copy what can be read of the old. */
    method Relocate(ptr: Ptr, oldSize: Size, newSize: Size, aligned: Size, mallocOk: bool) returns (moved: Option<Ptr>)
      requires Inv(Abstract()) && newSize > 0 && AlignUp(newSize) == Some(aligned as nat)
      modifies this`blocks, this`taken, this`current, this`memory
      ensures (Abstract(), moved) == Arenas.Relocate(old(Abstract()), ptr, oldSize, newSize, aligned, mallocOk)
      ensures Inv(Abstract())
    {
      AlignUpIsIdempotent(newSize);
      moved := Alloc(aligned, mallocOk);
      if moved.Some? {
        var readable := FindReadable(ptr);
        var copySize := if oldSize < newSize then oldSize else newSize;
        if copySize > readable {
          copySize := readable;
        }
        memory := Copied(memory, moved.value, ptr, copySize);
      }
    }

    method OnDestroy(callback: nat, mallocOk: bool) returns (ok: bool)
      requires Inv(Abstract())
      modifies this
      ensures (Abstract(), ok) == Arenas.OnDestroy(old(Abstract()), callback, mallocOk)
      ensures Inv(Abstract())
    {
      OnDestroyKeepsInv(Abstract(), callback, mallocOk);
      var node := Alloc(CLEANUP_NODE, mallocOk);
      if node.None? {
        return false;
      }
      cleanups := [Cleanup(node.value, callback)] + cleanups;
      registered := registered + [callback];
      return true;
    }

    method RunCleanupsUntil(stop: Option<Ptr>)
      modifies this`cleanups, this`fired
      ensures Abstract() == RunCleanups(old(Abstract()), CountUntil(old(cleanups), stop))
    {
      ghost var before := cleanups;
      ghost var n := 0;
      while cleanups != [] && stop != Some(cleanups[0].node)
        invariant n <= |before| && cleanups == before[n..]
        invariant fired == Ran(old(fired), before, n)
        invariant CountUntil(before, stop) == n + CountUntil(cleanups, stop)
        decreases |cleanups|
      {
        OneMore(before, n);
        var cleanup := cleanups[0];
        cleanups := cleanups[1..];
        fired := fired + [cleanup.callback];
        n := n + 1;
      }
    }

    method ClearBlocksFrom(start: nat)
      requires start <= |blocks|
      modifies this`blocks
      ensures blocks == ClearedFrom(old(blocks), start)
    {
      var i := start;
      while i < |blocks|
        invariant start <= i <= |blocks| == |old(blocks)|
        invariant forall k :: 0 <= k < start || i <= k < |blocks| ==> blocks[k] == old(blocks)[k]
        invariant forall k :: start <= k < i ==> blocks[k] == old(blocks)[k].(used := 0)
      {
        blocks := blocks[i := blocks[i].(used := 0)];
        i := i + 1;
      }
    }

    method ResetBlocksOnly()
      modifies this`blocks, this`current, this`taken
      ensures blocks == ClearedFrom(old(blocks), 0) && current == 0 && taken == []
    {
      ClearBlocksFrom(0);
      current := 0;
      taken := [];
    }

    method Reset()
      requires Inv(Abstract())
      modifies this
      ensures Abstract() == Arenas.Reset(old(Abstract()))
      ensures Inv(Abstract())
    {
      ResetKeepsInv(Abstract());
      RunCleanupsUntil(None);
      ResetBlocksOnly();
    }

    method TakeMark() returns (m: Mark)
      requires Inv(Abstract())
      ensures m == MarkOf(Abstract()) && GoodMark(m)
    {
      MarkIsGood(Abstract());
      return Mark(Some(current), blocks[current].used, if cleanups == [] then None else Some(cleanups[0].node));
    }

    method Rewind(m: Mark)
      requires Inv(Abstract()) && GoodMark(m)
      modifies this
      ensures Abstract() == Arenas.Rewind(old(Abstract()), m)
      ensures Inv(Abstract())
    {
      RewindKeepsInv(Abstract(), m);
      RunCleanupsUntil(m.cleanupHead);
      if m.block.None? || m.block.value >= |blocks| || m.used > blocks[m.block.value].capacity {
        RunCleanupsUntil(None);
        ResetBlocksOnly();
        return;
      }
      var place := m.block.value;
      blocks := blocks[place := blocks[place].(used := m.used)];
      current := place;
      taken := Below(taken, place, m.used);
      ClearBlocksFrom(place + 1);
    }

    method TotalAllocated() returns (total: nat)
      ensures total == SumUsed(blocks)
    {
      total := 0;
      for i := 0 to |blocks|
        invariant total + SumUsed(blocks[i..]) == SumUsed(blocks)
      {
        assert blocks[i..][0] == blocks[i] && blocks[i..][1..] == blocks[i + 1..];
        total := total + blocks[i].used;
      }
    }

    /** Every callback that still waits runs, newest first. */
    method Destroy()
      requires Conserved(Abstract())
      modifies this`cleanups, this`fired
      ensures cleanups == [] && fired == old(fired) + Callbacks(old(cleanups))
      ensures multiset(fired) == multiset(registered)
    {
      ghost var s := Abstract();
      RunCleanupsConserves(s, |cleanups|);
      RunCleanupsUntil(None);
      assert s.cleanups[..|s.cleanups|] == s.cleanups;
    }
  }

  method CreateArena(initialCapacity: Size, mallocOk: bool, contents: Memory) returns (arena: Arena?)
    ensures arena == null <==> !CanCreate(if initialCapacity < SMALLEST_BLOCK then SMALLEST_BLOCK else initialCapacity, mallocOk)
    ensures arena != null ==>
              && fresh(arena)
              && arena.Abstract() == Created(initialCapacity, contents)
              && Inv(arena.Abstract()) && Conserved(arena.Abstract())
  {
    var size := if initialCapacity < SMALLEST_BLOCK then SMALLEST_BLOCK else initialCapacity;
    if !CanCreate(size, mallocOk) {
      return null;
    }
    arena := new Arena(size, contents);
  }
}
