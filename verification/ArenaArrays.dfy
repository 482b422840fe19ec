/** Growable arrays whose storage comes from an arena, on values. */
module ArenaArrays {
  import opened Ids
  import opened Arenas
  import opened ArenaRuns

  const ARRAY_HEADER: nat := 48
  const INIT_CAPACITY: nat := 8

  /** The header starts at base and the items follow it; there is no base before the first
      growth. moved counts the slots copied by relocation. */
  datatype Arr = Arr(itemSize: nat, base: Option<Ptr>, capacity: nat, count: nat, moved: nat)

  function Empty(itemSize: nat): Arr {
    Arr(itemSize, None, 0, 0, 0)
  }

  /** The bytes of so many items: their number times the size of one. */
  function ItemBytes(itemSize: nat, items: nat): nat {
    if items == 0 then 0 else ItemBytes(itemSize, items - 1) + itemSize
  }

  lemma {:induction false} ItemBytesIsProduct(itemSize: nat, items: nat)
    ensures ItemBytes(itemSize, items) == items * itemSize
  {
    if items > 0 {
      ItemBytesIsProduct(itemSize, items - 1);
      assert items * itemSize == (items - 1) * itemSize + itemSize;
    }
  }

  lemma {:induction false} ItemBytesAdd(itemSize: nat, a: nat, n: nat)
    ensures ItemBytes(itemSize, a + n) == ItemBytes(itemSize, a) + ItemBytes(itemSize, n)
  {
    if n > 0 {
      ItemBytesAdd(itemSize, a, n - 1);
      assert a + n - 1 == a + (n - 1);
    }
  }

  function ArraySize(itemSize: nat, items: nat): nat {
    ARRAY_HEADER + ItemBytes(itemSize, items)
  }

  /** How the source tests that the size does not overflow. */
  lemma QuotientTestsSize(itemSize: nat, items: nat)
    requires itemSize > 0
    ensures items > (SIZE_MAX - ARRAY_HEADER) / itemSize <==> ArraySize(itemSize, items) > SIZE_MAX
  {
    ItemBytesIsProduct(itemSize, items);
    QuotientBound(SIZE_MAX - ARRAY_HEADER, itemSize, items);
  }

  lemma QuotientBound(most: nat, d: nat, n: nat)
    requires d > 0
    ensures n > most / d <==> n * d > most
  {
    var q, rest := most / d, most % d;
    assert most == q * d + rest && rest < d;
    if n > q {
      ProductMonotone(q + 1, n, d);
    } else {
      ProductMonotone(n, q, d);
    }
  }

  lemma ProductMonotone(a: nat, b: nat, d: nat)
    requires a <= b
    ensures a * d <= b * d
  {
  }

  /** Doubles until the minimum is met; where doubling would overflow, the minimum itself. */
  function Doubled(capacity: nat, minCapacity: nat): (grown: nat)
    requires capacity > 0
    ensures grown >= minCapacity
    decreases if capacity < minCapacity then minCapacity - capacity else 0
  {
    if capacity >= minCapacity then capacity
    else if capacity > SIZE_MAX / 2 then minCapacity
    else Doubled(capacity * 2, minCapacity)
  }

  function GrownCapacity(a: Arr, minCapacity: nat): (grown: nat)
    ensures grown >= minCapacity
  {
    Doubled(if a.capacity == 0 then INIT_CAPACITY else a.capacity, minCapacity)
  }

  function OldBytes(a: Arr): nat {
    if a.capacity == 0 then 0 else ArraySize(a.itemSize, a.capacity)
  }

  function Relocated(a: Arr, base: Option<Ptr>, capacity: nat, slots: nat): Arr {
    a.(base := base, capacity := capacity, moved := a.moved + if base == a.base then 0 else slots)
  }

  function Grow(s: State, a: Arr, minCapacity: nat, mallocOk: bool): (State, Arr, bool)
    requires s.Shaped() && a.itemSize > 0
  {
    if minCapacity <= a.capacity then (s, a, true)
    else
      var capacity := GrownCapacity(a, minCapacity);
      if ArraySize(a.itemSize, capacity) > SIZE_MAX then (s, a, false)
      else
        var (s', base) := ReallocLast(s, a.base, OldBytes(a), ArraySize(a.itemSize, capacity), mallocOk);
        if base.None? then (s', a, false) else (s', Relocated(a, base, capacity, a.capacity), true)
  }

  function Written(m: Memory, to: Ptr, bytes: seq<Byte>): Memory {
    (p: Ptr) =>
      if p.block == to.block && to.offset <= p.offset < to.offset + |bytes| then bytes[p.offset - to.offset] else m(p)
  }

  function Slot(a: Arr): Ptr
    requires a.base.Some?
  {
    Ptr(a.base.value.block, a.base.value.offset + ArraySize(a.itemSize, a.count))
  }

  /** The bytes of n items in the slots behind the last. */
  function Filled(s: State, a: Arr, n: nat, bytes: seq<Byte>): (State, Arr, bool)
    requires a.base.Some?
  {
    (s.(memory := Written(s.memory, Slot(a), bytes)), a.(count := a.count + n), true)
  }

  /** Room for n more items, and their bytes. */
  function Append(s: State, a: Arr, n: nat, bytes: seq<Byte>, mallocOk: bool): (State, Arr, bool)
    requires s.Shaped() && a.itemSize > 0 && |bytes| == ItemBytes(a.itemSize, n)
  {
    if n == 0 then (s, a, true)
    else if n > SIZE_MAX - a.count then (s, a, false)
    else
      AfterGrowing(Grow(s, a, a.count + n, mallocOk), n, bytes)
  }

  function AfterGrowing(g: (State, Arr, bool), n: nat, bytes: seq<Byte>): (State, Arr, bool) {
    if g.2 && g.1.base.Some? then Filled(g.0, g.1, n, bytes) else (g.0, g.1, false)
  }

  function Fit(s: State, a: Arr, mallocOk: bool): (State, Arr, bool)
    requires s.Shaped() && a.itemSize > 0
  {
    if a.base.None? then (s, a, false)
    else if a.count == a.capacity then (s, a, true)
    else
      var (s', base) := ReallocLast(s, a.base, ArraySize(a.itemSize, a.capacity), ArraySize(a.itemSize, a.count), mallocOk);
      if base.None? then (s', a, false) else (s', Relocated(a, base, a.count, a.count), true)
  }

  function Bytes(m: Memory, p: Ptr, n: nat): (bytes: seq<Byte>)
    ensures |bytes| == n
  {
    seq(n, i requires 0 <= i < n => At(m, p, i))
  }

  /** The bytes of the items, in order. */
  function Contents(m: Memory, a: Arr): (contents: seq<Byte>)
    ensures |contents| == if a.base.Some? then ItemBytes(a.itemSize, a.count) else 0
  {
    if a.base.None? then [] else Bytes(m, Ptr(a.base.value.block, a.base.value.offset + ARRAY_HEADER), ItemBytes(a.itemSize, a.count))
  }

  // ---- one array in its arena ----

  /** Storage of the given size at ptr is handed out, and not to a cleanup. */
  ghost predicate Holds(s: State, ptr: Ptr, size: nat) {
    && AlignUp(size).Some?
    && Extent(ptr, AlignUp(size).value) in s.taken
    && forall i :: 0 <= i < |s.cleanups| ==> s.cleanups[i].node != ptr
  }

  /** The array has room for its items, and its storage is handed out to it. */
  ghost predicate GoodArray(s: State, a: Arr) {
    && a.itemSize > 0 && a.count <= a.capacity
    && (a.base.None? ==> a.capacity == 0)
    && (a.base.Some? ==> Holds(s, a.base.value, ArraySize(a.itemSize, a.capacity)))
  }

  lemma HolderOwns(s: State, ptr: Ptr, size: nat)
    requires Holds(s, ptr, size)
    ensures Owns(s, ptr, size) && Owns(s, ptr, 0)
  {
    var i :| 0 <= i < |s.taken| && s.taken[i] == Extent(ptr, AlignUp(size).value);
  }

  lemma SizeIsMonotone(itemSize: nat, a: nat, b: nat)
    requires a <= b
    ensures ArraySize(itemSize, a) <= ArraySize(itemSize, b)
  {
    ItemBytesAdd(itemSize, a, b - a);
  }

  lemma LastMissesOthers(s: State, added: Extent, e: Extent)
    requires Inv(s) && s.taken != [] && s.taken[|s.taken| - 1] == added && e in s.taken[..|s.taken| - 1]
    ensures e.ptr != added.ptr && !Overlap(e, added)
  {
    var n := |s.taken| - 1;
    var k :| 0 <= k < n && s.taken[k] == e;
    TakenIsDisjoint(s, k, n);
  }

  /** The new storage comes last, all that was handed out to others before it. */
  lemma ReallocGivesLast(s: State, ptr: Option<Ptr>, oldSize: nat, newSize: nat, mallocOk: bool, e: Extent)
    requires Inv(s) && (ptr.Some? ==> Owns(s, ptr.value, oldSize)) && e in s.taken && ptr != Some(e.ptr)
    ensures var (s', ptr') := ReallocLast(s, ptr, oldSize, newSize, mallocOk);
      ptr'.Some? ==>
        && AlignUp(newSize).Some? && s'.taken != []
        && s'.taken[|s'.taken| - 1] == Extent(ptr'.value, AlignUp(newSize).value)
        && e in s'.taken[..|s'.taken| - 1]
  {
    if newSize > 0 && AlignUp(newSize).Some? {
      AllocAlignedAppends(s, AlignUp(newSize).value, mallocOk);
      if ptr.Some? && ResizesInPlace(s, ptr.value, oldSize, newSize) {
        InPlaceIsLast(s, ptr.value, oldSize, newSize);
        var k :| 0 <= k < |s.taken| && s.taken[k] == e;
        assert s.taken[..|s.taken| - 1][k] == e;
      }
    }
  }

  /** Resizing storage leaves everything else that is handed out alone. */
  lemma ReallocMissesOthers(s: State, ptr: Option<Ptr>, oldSize: nat, newSize: nat, mallocOk: bool, e: Extent)
    requires Inv(s) && (ptr.Some? ==> Owns(s, ptr.value, oldSize)) && e in s.taken && ptr != Some(e.ptr)
    ensures var (s', ptr') := ReallocLast(s, ptr, oldSize, newSize, mallocOk);
      && e in s'.taken
      && SameBytes(s.memory, s'.memory, e)
      && (ptr'.Some? ==> AlignUp(newSize).Some? && ptr'.value != e.ptr && !Overlap(e, Extent(ptr'.value, AlignUp(newSize).value)))
  {
    var (s', ptr') := ReallocLast(s, ptr, oldSize, newSize, mallocOk);
    ReallocKeepsBytes(s, ptr, oldSize, newSize, mallocOk, e);
    ReallocKeepsInv(s, ptr, oldSize, newSize, mallocOk);
    ReallocKeepsCleanupList(s, ptr, oldSize, newSize, mallocOk);
    if ptr'.Some? {
      ReallocGivesLast(s, ptr, oldSize, newSize, mallocOk, e);
      LastMissesOthers(s', Extent(ptr'.value, AlignUp(newSize).value), e);
    }
  }

  lemma ResizedIsNoNode(s: State, ptr: Option<Ptr>, oldSize: nat, newSize: nat, mallocOk: bool)
    requires Inv(s) && (ptr.Some? ==> Owns(s, ptr.value, oldSize))
    ensures var (s', ptr') := ReallocLast(s, ptr, oldSize, newSize, mallocOk);
      ptr'.Some? ==> forall i :: 0 <= i < |s.cleanups| ==> s.cleanups[i].node != ptr'.value
  {
    var (s', ptr') := ReallocLast(s, ptr, oldSize, newSize, mallocOk);
    if ptr'.Some? {
      forall i | 0 <= i < |s.cleanups| ensures s.cleanups[i].node != ptr'.value {
        ReallocMissesOthers(s, ptr, oldSize, newSize, mallocOk, NodeExtent(s.cleanups[i].node));
      }
    }
  }

  lemma PrefixHoldsItems(m: Memory, p: Ptr, m': Memory, p': Ptr, count: nat, n: nat)
    requires SamePrefix(m, p, m', p', count) && ARRAY_HEADER + n <= count
    ensures Bytes(m', Ptr(p'.block, p'.offset + ARRAY_HEADER), n) == Bytes(m, Ptr(p.block, p.offset + ARRAY_HEADER), n)
  {
    var q, q' := Ptr(p.block, p.offset + ARRAY_HEADER), Ptr(p'.block, p'.offset + ARRAY_HEADER);
    forall i | 0 <= i < n ensures At(m', q', i) == At(m, q, i) {
      assert At(m', p', ARRAY_HEADER + i) == At(m, p, ARRAY_HEADER + i);
    }
  }

  lemma NewStorage(s: State, newSize: nat, mallocOk: bool)
    requires Inv(s)
    ensures var (s', ptr) := Alloc(s, newSize, mallocOk);
      ptr.Some? ==> AlignUp(newSize).Some? && Extent(ptr.value, AlignUp(newSize).value) in s'.taken
  {
    if AlignUp(newSize).Some? {
      AllocAlignedAppends(s, AlignUp(newSize).value, mallocOk);
    }
  }

  lemma ResizedIsHeld(s: State, ptr: Option<Ptr>, oldSize: nat, newSize: nat, mallocOk: bool)
    requires Inv(s) && (ptr.Some? ==> Owns(s, ptr.value, oldSize))
    ensures var (s', ptr') := ReallocLast(s, ptr, oldSize, newSize, mallocOk);
      ptr'.Some? ==> Holds(s', ptr'.value, newSize)
  {
    ReallocKeepsCleanupList(s, ptr, oldSize, newSize, mallocOk);
    ResizedIsNoNode(s, ptr, oldSize, newSize, mallocOk);
    NewStorage(s, newSize, mallocOk);
    if ptr.Some? {
      ReallocKeepsContents(s, ptr.value, oldSize, newSize, mallocOk);
    }
  }

  /** s' and base are the outcome of new storage for so many items of the array. */
  ghost predicate Resizes(s: State, a: Arr, capacity: nat, s': State, base: Option<Ptr>) {
    if base.Some? then
      && Inv(s')
      && Holds(s', base.value, ArraySize(a.itemSize, capacity))
      && Contents(s'.memory, a.(base := base)) == Contents(s.memory, a)
    else s' == s
  }

  lemma MovedContents(m: Memory, a: Arr, m': Memory, base: Ptr, count: nat)
    requires a.base.Some? ==> a.count > 0 ==> SamePrefix(m, a.base.value, m', base, count) && ArraySize(a.itemSize, a.count) <= count
    requires a.base.None? ==> a.count == 0
    ensures Contents(m', a.(base := Some(base))) == Contents(m, a)
  {
    if a.count > 0 {
      PrefixHoldsItems(m, a.base.value, m', base, count, ItemBytes(a.itemSize, a.count));
    }
  }

  /** New storage for an array, at least for the items it has: they move with it. */
  lemma ResizeIsGood(s: State, a: Arr, oldSize: nat, capacity: nat, mallocOk: bool)
    requires Inv(s) && GoodArray(s, a) && a.count <= capacity
    requires a.base.Some? ==> Owns(s, a.base.value, oldSize) && (a.count > 0 ==> oldSize >= ArraySize(a.itemSize, a.count))
    ensures var r := ReallocLast(s, a.base, oldSize, ArraySize(a.itemSize, capacity), mallocOk);
      Resizes(s, a, capacity, r.0, r.1)
  {
    var newSize := ArraySize(a.itemSize, capacity);
    var (s', base) := ReallocLast(s, a.base, oldSize, newSize, mallocOk);
    ReallocKeepsInv(s, a.base, oldSize, newSize, mallocOk);
    ReallocKeepsCleanupList(s, a.base, oldSize, newSize, mallocOk);
    ResizedIsHeld(s, a.base, oldSize, newSize, mallocOk);
    if base.Some? {
      SizeIsMonotone(a.itemSize, a.count, capacity);
      if a.base.Some? {
        ReallocKeepsContents(s, a.base.value, oldSize, newSize, mallocOk);
      }
      MovedContents(s.memory, a, s'.memory, base.value, Min(oldSize, newSize));
    }
  }

  lemma OldBytesSuffice(s: State, a: Arr)
    requires GoodArray(s, a) && a.base.Some?
    ensures a.count > 0 ==> OldBytes(a) >= ArraySize(a.itemSize, a.count)
    ensures ArraySize(a.itemSize, a.capacity) >= ArraySize(a.itemSize, a.count)
  {
    SizeIsMonotone(a.itemSize, a.count, a.capacity);
  }

  lemma WrittenAppends(m: Memory, p: Ptr, n: nat, bytes: seq<Byte>)
    ensures Bytes(Written(m, Ptr(p.block, p.offset + n), bytes), p, n + |bytes|) == Bytes(m, p, n) + bytes
  {
  }

  lemma FillIsGood(s: State, a: Arr, n: nat, bytes: seq<Byte>)
    requires Inv(s) && GoodArray(s, a) && a.base.Some? && a.count + n <= a.capacity && |bytes| == ItemBytes(a.itemSize, n)
    ensures var (s', a', ok) := Filled(s, a, n, bytes);
      && ok && Inv(s') && GoodArray(s', a') && a'.itemSize == a.itemSize && a'.count == a.count + n
      && Contents(s'.memory, a') == Contents(s.memory, a) + bytes
  {
    FillAppends(s.memory, a, n, bytes);
  }

  lemma FillAppends(m: Memory, a: Arr, n: nat, bytes: seq<Byte>)
    requires a.base.Some? && |bytes| == ItemBytes(a.itemSize, n)
    ensures Contents(Written(m, Slot(a), bytes), a.(count := a.count + n)) == Contents(m, a) + bytes
  {
    var items, used := Ptr(a.base.value.block, a.base.value.offset + ARRAY_HEADER), ItemBytes(a.itemSize, a.count);
    ItemBytesAdd(a.itemSize, a.count, n);
    WrittenAppends(m, items, used, bytes);
    assert Slot(a) == Ptr(items.block, items.offset + used);
  }

  /** r is the outcome of adding the bytes of n items to a, or a refusal that changes nothing. */
  ghost predicate Extends(s: State, a: Arr, n: nat, bytes: seq<Byte>, r: (State, Arr, bool)) {
    if r.2 then
      && Inv(r.0) && GoodArray(r.0, r.1) && r.1.itemSize == a.itemSize && r.1.count == a.count + n
      && Contents(r.0.memory, r.1) == Contents(s.memory, a) + bytes
    else r.0 == s && r.1 == a
  }

  /** r is the outcome of new storage for a with the same items, or a refusal. */
  ghost predicate Keeps(s: State, a: Arr, r: (State, Arr, bool)) {
    if r.2 then
      && Inv(r.0) && GoodArray(r.0, r.1) && r.1.itemSize == a.itemSize && r.1.count == a.count
      && Contents(r.0.memory, r.1) == Contents(s.memory, a)
    else r.0 == s && r.1 == a
  }

  lemma KeepsIsExtends(s: State, a: Arr, r: (State, Arr, bool))
    requires Keeps(s, a, r)
    ensures Extends(s, a, 0, [], r)
  {
  }

  predicate HasCapacity(r: (State, Arr, bool), minCapacity: nat) {
    r.2 ==> r.1.capacity >= minCapacity
  }

  /** Growing keeps the items, and gives the room that was asked for. */
  lemma GrowIsGood(s: State, a: Arr, minCapacity: nat, mallocOk: bool)
    requires Inv(s) && GoodArray(s, a)
    ensures Keeps(s, a, Grow(s, a, minCapacity, mallocOk))
    ensures HasCapacity(Grow(s, a, minCapacity, mallocOk), minCapacity)
  {
    var capacity := GrownCapacity(a, minCapacity);
    if minCapacity > a.capacity && ArraySize(a.itemSize, capacity) <= SIZE_MAX {
      if a.base.Some? {
        HolderOwns(s, a.base.value, ArraySize(a.itemSize, a.capacity));
        OldBytesSuffice(s, a);
      }
      var r := ReallocLast(s, a.base, OldBytes(a), ArraySize(a.itemSize, capacity), mallocOk);
      ResizeIsGood(s, a, OldBytes(a), capacity, mallocOk);
      ResizeExtends(s, a, capacity, a.capacity, r.0, r.1);
    }
  }

  lemma ResizeExtends(s: State, a: Arr, capacity: nat, slots: nat, s': State, base: Option<Ptr>)
    requires GoodArray(s, a) && a.count <= capacity && Resizes(s, a, capacity, s', base)
    ensures Keeps(s, a, if base.None? then (s', a, false) else (s', Relocated(a, base, capacity, slots), true))
  {
  }

  /** Giving back the unused slots keeps the items; where the array is not the last
      allocation, it is copied to a smaller place. */
  lemma FitIsGood(s: State, a: Arr, mallocOk: bool)
    requires Inv(s) && GoodArray(s, a)
    ensures Keeps(s, a, Fit(s, a, mallocOk))
    ensures Fit(s, a, mallocOk).2 ==> Fit(s, a, mallocOk).1.capacity == a.count
  {
    if a.base.Some? && a.count != a.capacity {
      HolderOwns(s, a.base.value, ArraySize(a.itemSize, a.capacity));
      OldBytesSuffice(s, a);
      var r := ReallocLast(s, a.base, ArraySize(a.itemSize, a.capacity), ArraySize(a.itemSize, a.count), mallocOk);
      ResizeIsGood(s, a, ArraySize(a.itemSize, a.capacity), a.count, mallocOk);
      ResizeExtends(s, a, a.count, a.count, r.0, r.1);
    }
  }

  lemma FillExtends(s: State, a: Arr, n: nat, bytes: seq<Byte>, g: (State, Arr, bool))
    requires 0 < n && |bytes| == ItemBytes(a.itemSize, n)
    requires Keeps(s, a, g) && HasCapacity(g, a.count + n)
    ensures Extends(s, a, n, bytes, AfterGrowing(g, n, bytes))
  {
    if g.2 {
      FillIsGood(g.0, g.1, n, bytes);
    }
  }

  lemma GrowThenFill(s: State, a: Arr, n: nat, bytes: seq<Byte>, mallocOk: bool)
    requires Inv(s) && GoodArray(s, a) && |bytes| == ItemBytes(a.itemSize, n) && 0 < n
    ensures Extends(s, a, n, bytes, AfterGrowing(Grow(s, a, a.count + n, mallocOk), n, bytes))
  {
    GrowIsGood(s, a, a.count + n, mallocOk);
    FillExtends(s, a, n, bytes, Grow(s, a, a.count + n, mallocOk));
  }

  lemma AppendUnfolds(s: State, a: Arr, n: nat, bytes: seq<Byte>, mallocOk: bool)
    requires s.Shaped() && a.itemSize > 0 && |bytes| == ItemBytes(a.itemSize, n)
    ensures 0 < n <= SIZE_MAX - a.count ==>
              Append(s, a, n, bytes, mallocOk) == AfterGrowing(Grow(s, a, a.count + n, mallocOk), n, bytes)
    ensures !(0 < n <= SIZE_MAX - a.count) ==> Append(s, a, n, bytes, mallocOk) == (s, a, n == 0)
  {
  }

  lemma NothingExtends(s: State, a: Arr, bytes: seq<Byte>)
    requires Inv(s) && GoodArray(s, a) && bytes == []
    ensures Extends(s, a, 0, bytes, (s, a, true))
  {
  }

  /** The array is its old items followed by the new ones. */
  lemma AppendIsGood(s: State, a: Arr, n: nat, bytes: seq<Byte>, mallocOk: bool)
    requires Inv(s) && GoodArray(s, a) && |bytes| == ItemBytes(a.itemSize, n)
    ensures Extends(s, a, n, bytes, Append(s, a, n, bytes, mallocOk))
  {
    if n == 0 {
      NothingExtends(s, a, bytes);
    } else if n <= SIZE_MAX - a.count {
      GrowThenFill(s, a, n, bytes, mallocOk);
    }
    AppendUnfolds(s, a, n, bytes, mallocOk);
  }

  // ---- when fitting succeeds ----

  lemma MovedIsElsewhere(s: State, ptr: Ptr, oldSize: nat, newSize: nat, mallocOk: bool)
    requires Inv(s) && Holds(s, ptr, oldSize) && newSize > 0 && !ResizesInPlace(s, ptr, oldSize, newSize)
    ensures ReallocLast(s, Some(ptr), oldSize, newSize, mallocOk).1 != Some(ptr)
    ensures ReallocLast(s, Some(ptr), oldSize, newSize, mallocOk).1.Some? <==> Alloc(s, newSize, mallocOk).1.Some?
  {
    if AlignUp(newSize).Some? {
      var size := AlignUp(newSize).value;
      var (s', moved) := AllocAligned(s, size, mallocOk);
      AllocAlignedAppends(s, size, mallocOk);
      AllocAlignedKeepsInv(s, size, mallocOk);
      if moved.Some? {
        LastMissesOthers(s', Extent(moved.value, size), Extent(ptr, AlignUp(oldSize).value));
      }
    }
  }

  /** Fitting succeeds when nothing is to be done, when the array is the last allocation, and
      in all other cases exactly when there is room for a copy; then the array moves. */
  lemma FitSucceedsExactlyWhen(s: State, a: Arr, mallocOk: bool)
    requires Inv(s) && GoodArray(s, a)
    ensures Fit(s, a, mallocOk).2 <==>
            && a.base.Some?
            && (|| a.count == a.capacity
                || ResizesInPlace(s, a.base.value, ArraySize(a.itemSize, a.capacity), ArraySize(a.itemSize, a.count))
                || Alloc(s, ArraySize(a.itemSize, a.count), mallocOk).1.Some?)
    ensures Fit(s, a, mallocOk).2 && a.count < a.capacity ==>
              (Fit(s, a, mallocOk).1.base == a.base <==>
               ResizesInPlace(s, a.base.value, ArraySize(a.itemSize, a.capacity), ArraySize(a.itemSize, a.count)))
  {
    if a.base.Some? && a.count != a.capacity {
      var oldSize, newSize := ArraySize(a.itemSize, a.capacity), ArraySize(a.itemSize, a.count);
      if !ResizesInPlace(s, a.base.value, oldSize, newSize) {
        MovedIsElsewhere(s, a.base.value, oldSize, newSize, mallocOk);
      }
    }
  }

  /** An array that is not the last allocation, and is copied when it is fitted. */
  lemma FitCanCopy(memory: Memory)
    ensures var (s, a, _) := Grow(Created(4096, memory), Empty(1), 8, true);
      var (s', _) := Alloc(s, 16, true);
      && Inv(s') && GoodArray(s', a)
      && Fit(s', a, true).2 && Fit(s', a, true).1.base != a.base
  {
    var s0 := Created(4096, memory);
    CreatedHasInv(4096, memory);
    GrowIsGood(s0, Empty(1), 8, true);
    ItemBytesIsProduct(1, 8);
    var (s, a, ok) := Grow(s0, Empty(1), 8, true);
    assert a.base == Some(Ptr(0, 0)) && s.blocks[0].used == 64;
    var s' := Alloc(s, 16, true).0;
    AllocKeepsInv(s, 16, true);
    AllocAlignedAppends(s, 16, true);
    assert s'.blocks[0].used == 80 && s'.current == 0;
    AllocKeepsCleanupList(s, 16, true);
    assert ArraySize(1, 0) == 48;
    FitSucceedsExactlyWhen(s', a, true);
  }

  // ---- when growing succeeds ----

  /** Growing fails only for an overflow of the size or for want of storage. */
  lemma GrowSucceedsExactlyWhen(s: State, a: Arr, minCapacity: nat, mallocOk: bool)
    requires s.Shaped() && a.itemSize > 0
    ensures Grow(s, a, minCapacity, mallocOk).2 <==>
            || minCapacity <= a.capacity
            || (&& ArraySize(a.itemSize, GrownCapacity(a, minCapacity)) <= SIZE_MAX
                && ReallocLast(s, a.base, OldBytes(a), ArraySize(a.itemSize, GrownCapacity(a, minCapacity)), mallocOk).1.Some?)
  {
  }

  /** Appending fails only where growing does, or for an overflow of the count. */
  lemma AppendSucceedsExactlyWhen(s: State, a: Arr, n: nat, bytes: seq<Byte>, mallocOk: bool)
    requires Inv(s) && GoodArray(s, a) && |bytes| == ItemBytes(a.itemSize, n)
    ensures Append(s, a, n, bytes, mallocOk).2 <==>
            n == 0 || (a.count + n <= SIZE_MAX && Grow(s, a, a.count + n, mallocOk).2)
  {
    AppendUnfolds(s, a, n, bytes, mallocOk);
    if 0 < n <= SIZE_MAX - a.count {
      GrowIsGood(s, a, a.count + n, mallocOk);
    }
  }

  /** The k-th item of an array is the k-th stretch of its bytes. */
  lemma ItemOfContents(m: Memory, a: Arr, k: nat, i: nat)
    requires a.base.Some? && k < a.count && i < a.itemSize
    requires ItemBytes(a.itemSize, k) + i < ItemBytes(a.itemSize, a.count)
    ensures Contents(m, a)[ItemBytes(a.itemSize, k) + i] ==
            m(Ptr(a.base.value.block, a.base.value.offset + 48 + ItemBytes(a.itemSize, k) + i))
  {
    var items := Ptr(a.base.value.block, a.base.value.offset + ARRAY_HEADER);
    assert Contents(m, a) == Bytes(m, items, ItemBytes(a.itemSize, a.count));
    assert Contents(m, a)[ItemBytes(a.itemSize, k) + i] == At(m, items, ItemBytes(a.itemSize, k) + i);
  }

  /** The count of moved slots grows by the slots of the array when growing moves it, and not at
      all when the array stays where it is. */
  lemma MovedMeans(s: State, a: Arr, minCapacity: nat, mallocOk: bool)
    requires s.Shaped() && a.itemSize > 0
    ensures var a' := Grow(s, a, minCapacity, mallocOk).1;
      && (a'.base == a.base ==> a'.moved == a.moved)
      && (a'.base != a.base ==> a'.moved == a.moved + a.capacity)
  {
  }
}
