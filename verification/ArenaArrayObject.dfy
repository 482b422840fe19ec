/** The growable array as an object, with its storage in an arena object. */
module ArenaArrayObject {
  import opened Ids
  import opened Arenas
  import opened ArenaArrays
  import opened ArenaObject

  class ArenaArray {
    const itemSize: nat
    var base: Option<Ptr>
    var capacity: nat
    var count: nat
    ghost var moved: nat

    ghost function Abstract(): Arr
      reads this
    {
      Arr(itemSize, base, capacity, count, moved)
    }

    ghost predicate Valid(arena: Arena)
      reads this, arena
    {
      Inv(arena.Abstract()) && GoodArray(arena.Abstract(), Abstract())
    }

    constructor (itemSize: nat)
      ensures Abstract() == Empty(itemSize)
    {
      this.itemSize := itemSize;
      base, capacity, count, moved := None, 0, 0, 0;
    }

    /** The doubling loop. */
    method NewCapacity(minCapacity: Size) returns (grown: Size)
      requires capacity <= SIZE_MAX
      ensures grown == GrownCapacity(Abstract(), minCapacity)
    {
      var start: Size := if capacity == 0 then INIT_CAPACITY else capacity;
      grown := start;
      while grown < minCapacity
        invariant grown > 0
        invariant Doubled(start, minCapacity) == Doubled(grown, minCapacity)
        decreases if grown < minCapacity then minCapacity - grown else 0
      {
        if grown > SIZE_MAX / 2 {
          grown := minCapacity;
          break;
        }
        grown := grown * 2;
      }
    }

    /** New storage for so many items, where the header says so afterwards. */
    method Resize(arena: Arena, oldSize: Size, newCapacity: nat, ghost slots: nat, mallocOk: bool) returns (ok: bool)
      requires Inv(arena.Abstract()) && (base.Some? ==> Owns(arena.Abstract(), base.value, oldSize))
      requires ArraySize(itemSize, newCapacity) <= SIZE_MAX
      modifies this`base, this`capacity, this`moved, arena
      ensures Inv(arena.Abstract())
      ensures var r := ReallocLast(old(arena.Abstract()), old(base), oldSize, ArraySize(itemSize, newCapacity), mallocOk);
        && arena.Abstract() == r.0
        && ok == r.1.Some?
        && Abstract() == if ok then Relocated(old(Abstract()), r.1, newCapacity, slots) else old(Abstract())
    {
      ItemBytesIsProduct(itemSize, newCapacity);
      var newSize := ARRAY_HEADER + newCapacity * itemSize;
      var newBase := arena.ReallocLast(base, oldSize, newSize, mallocOk);
      if newBase.None? {
        return false;
      }
      Rebase(newBase, newCapacity, slots);
      return true;
    }

    method Rebase(newBase: Option<Ptr>, newCapacity: nat, ghost slots: nat)
      modifies this`base, this`capacity, this`moved
      ensures Abstract() == Relocated(old(Abstract()), newBase, newCapacity, slots)
    {
      moved := moved + if newBase == base then 0 else slots;
      base, capacity := newBase, newCapacity;
    }

    method Grow(arena: Arena, minCapacity: Size, mallocOk: bool) returns (ok: bool)
      requires Valid(arena)
      modifies this`base, this`capacity, this`moved, arena
      ensures (arena.Abstract(), Abstract(), ok) ==
              ArenaArrays.Grow(old(arena.Abstract()), old(Abstract()), minCapacity, mallocOk)
    {
      if minCapacity <= capacity {
        return true;
      }
      CapacityIsSize(arena.Abstract(), Abstract());
      var newCapacity := NewCapacity(minCapacity);
      QuotientTestsSize(itemSize, newCapacity);
      if newCapacity > (SIZE_MAX - ARRAY_HEADER) / itemSize {
        return false;
      }
      ItemBytesIsProduct(itemSize, capacity);
      var oldSize := if capacity == 0 then 0 else ARRAY_HEADER + capacity * itemSize;
      if base.Some? {
        HolderOwns(arena.Abstract(), base.value, ArraySize(itemSize, capacity));
      }
      ok := Resize(arena, oldSize, newCapacity, capacity, mallocOk);
    }

    /** arena_arr__append_n and the writes of its caller. */
    method Append(arena: Arena, n: Size, bytes: seq<Byte>, mallocOk: bool) returns (ok: bool)
      requires Valid(arena) && |bytes| == ItemBytes(itemSize, n)
      modifies this, arena
      ensures (arena.Abstract(), Abstract(), ok) ==
              ArenaArrays.Append(old(arena.Abstract()), old(Abstract()), n, bytes, mallocOk)
      ensures Valid(arena)
      ensures Contents(arena.memory, Abstract()) ==
              old(Contents(arena.memory, Abstract())) + if ok then bytes else []
    {
      AppendIsGood(arena.Abstract(), Abstract(), n, bytes, mallocOk);
      AppendUnfolds(arena.Abstract(), Abstract(), n, bytes, mallocOk);
      if n == 0 {
        return true;
      }
      if n > SIZE_MAX - count {
        return false;
      }
      ok := Grow(arena, count + n, mallocOk);
      if !ok {
        return;
      }
      Fill(arena, n, bytes);
    }

    method Fill(arena: Arena, n: nat, bytes: seq<Byte>)
      requires base.Some?
      modifies this`count, arena`memory
      ensures (arena.Abstract(), Abstract(), true) == Filled(old(arena.Abstract()), old(Abstract()), n, bytes)
    {
      ItemBytesIsProduct(itemSize, count);
      var slot := Ptr(base.value.block, base.value.offset + ARRAY_HEADER + count * itemSize);
      arena.memory := Written(arena.memory, slot, bytes);
      count := count + n;
    }

    /** Where the array is not the last allocation, the source does not refuse, as its comment
        has it, but copies the array to a smaller place. */
    method Fit(arena: Arena, mallocOk: bool) returns (ok: bool)
      requires Valid(arena)
      modifies this, arena
      ensures (arena.Abstract(), Abstract(), ok) == ArenaArrays.Fit(old(arena.Abstract()), old(Abstract()), mallocOk)
      ensures Valid(arena)
      ensures Contents(arena.memory, Abstract()) == old(Contents(arena.memory, Abstract()))
    {
      FitIsGood(arena.Abstract(), Abstract(), mallocOk);
      if base.None? {
        return false;
      }
      if count == capacity {
        return true;
      }
      OldBytesSuffice(arena.Abstract(), Abstract());
      ItemBytesIsProduct(itemSize, capacity);
      HolderOwns(arena.Abstract(), base.value, ArraySize(itemSize, capacity));
      ok := Resize(arena, ARRAY_HEADER + capacity * itemSize, count, count, mallocOk);
    }
  }

  lemma CapacityIsSize(s: State, a: Arr)
    requires GoodArray(s, a)
    ensures a.capacity <= SIZE_MAX && ArraySize(a.itemSize, a.capacity) <= SIZE_MAX + ARRAY_HEADER
  {
    ItemBytesIsProduct(a.itemSize, a.capacity);
    ProductMonotone(1, a.itemSize, a.capacity);
  }
}
