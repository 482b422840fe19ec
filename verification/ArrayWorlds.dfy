/** Several growable arrays, plain allocations and cleanups, interleaved in one arena. */
module ArrayWorlds {
  import opened Ids
  import opened Sequences
  import opened Arenas
  import opened ArenaRuns
  import opened ArenaArrays

  ghost predicate Separate(a: Arr, b: Arr) {
    a.base.Some? && b.base.Some? ==> a.base != b.base
  }

  function StorageOf(a: Arr): Extent
    requires a.base.Some? && AlignUp(ArraySize(a.itemSize, a.capacity)).Some?
  {
    Extent(a.base.value, AlignUp(ArraySize(a.itemSize, a.capacity)).value)
  }

  /** r leaves the array b alone. */
  ghost predicate Leaves(s: State, b: Arr, s': State) {
    GoodArray(s', b) && Contents(s'.memory, b) == Contents(s.memory, b)
  }

  lemma LeavesIsTransitive(s: State, t: State, u: State, b: Arr)
    requires Leaves(s, b, t) && Leaves(t, b, u)
    ensures Leaves(s, b, u)
  {
  }

  lemma SameStorageLeaves(s: State, b: Arr, s': State)
    requires GoodArray(s, b) && s'.cleanups == s.cleanups
    requires b.base.Some? ==> StorageOf(b) in s'.taken && SameBytes(s.memory, s'.memory, StorageOf(b))
    ensures Leaves(s, b, s')
  {
    if b.base.Some? {
      SizeIsMonotone(b.itemSize, b.count, b.capacity);
      var items, n := Ptr(b.base.value.block, b.base.value.offset + ARRAY_HEADER), ItemBytes(b.itemSize, b.count);
      forall i | 0 <= i < n ensures At(s'.memory, items, i) == At(s.memory, items, i) {
      }
      assert Bytes(s'.memory, items, n) == Bytes(s.memory, items, n);
    }
  }

  lemma ReallocLeaves(s: State, a: Arr, b: Arr, oldSize: nat, newSize: nat, mallocOk: bool)
    requires Inv(s) && GoodArray(s, b) && Separate(a, b) && (a.base.Some? ==> Owns(s, a.base.value, oldSize))
    ensures var r := ReallocLast(s, a.base, oldSize, newSize, mallocOk);
      Leaves(s, b, r.0) && (r.1.Some? ==> Separate(a.(base := r.1), b))
  {
    ReallocKeepsCleanupList(s, a.base, oldSize, newSize, mallocOk);
    var r := ReallocLast(s, a.base, oldSize, newSize, mallocOk);
    if b.base.Some? {
      ReallocMissesOthers(s, a.base, oldSize, newSize, mallocOk, StorageOf(b));
    }
    SameStorageLeaves(s, b, r.0);
  }

  lemma GrowLeaves(s: State, a: Arr, b: Arr, minCapacity: nat, mallocOk: bool)
    requires Inv(s) && GoodArray(s, a) && GoodArray(s, b) && Separate(a, b)
    ensures var g := Grow(s, a, minCapacity, mallocOk);
      Leaves(s, b, g.0) && Separate(g.1, b)
  {
    if a.base.Some? {
      HolderOwns(s, a.base.value, ArraySize(a.itemSize, a.capacity));
    }
    ReallocLeaves(s, a, b, OldBytes(a), ArraySize(a.itemSize, GrownCapacity(a, minCapacity)), mallocOk);
  }

  lemma FitLeaves(s: State, a: Arr, b: Arr, mallocOk: bool)
    requires Inv(s) && GoodArray(s, a) && GoodArray(s, b) && Separate(a, b)
    ensures var f := Fit(s, a, mallocOk);
      Leaves(s, b, f.0) && Separate(f.1, b)
  {
    if a.base.Some? {
      HolderOwns(s, a.base.value, ArraySize(a.itemSize, a.capacity));
      ReallocLeaves(s, a, b, ArraySize(a.itemSize, a.capacity), ArraySize(a.itemSize, a.count), mallocOk);
    }
  }

  lemma StorageIsDisjoint(s: State, a: Arr, b: Arr)
    requires Inv(s) && GoodArray(s, a) && GoodArray(s, b)
    requires a.base.Some? && b.base.Some? && a.base.value != b.base.value
    ensures !Overlap(StorageOf(a), StorageOf(b))
  {
    var e, f := StorageOf(a), StorageOf(b);
    var i :| 0 <= i < |s.taken| && s.taken[i] == e;
    var j :| 0 <= j < |s.taken| && s.taken[j] == f;
    TakenIsDisjoint(s, i, j);
  }

  /** Writing the new items stays inside the storage of the array. */
  lemma FillLeaves(s: State, a: Arr, b: Arr, n: nat, bytes: seq<Byte>)
    requires Inv(s) && GoodArray(s, a) && GoodArray(s, b) && Separate(a, b)
    requires a.base.Some? && a.count + n <= a.capacity && |bytes| == ItemBytes(a.itemSize, n)
    ensures Leaves(s, b, Filled(s, a, n, bytes).0)
  {
    SizeIsMonotone(a.itemSize, a.count + n, a.capacity);
    ItemBytesAdd(a.itemSize, a.count, n);
    if b.base.Some? {
      StorageIsDisjoint(s, a, b);
    }
    SameStorageLeaves(s, b, Filled(s, a, n, bytes).0);
  }

  ghost predicate GrewBeside(s: State, a: Arr, b: Arr, minCapacity: nat, g: (State, Arr, bool)) {
    Keeps(s, a, g) && HasCapacity(g, minCapacity) && Leaves(s, b, g.0) && Separate(g.1, b)
  }

  lemma GrowsBeside(s: State, a: Arr, b: Arr, minCapacity: nat, mallocOk: bool) returns (g: (State, Arr, bool))
    requires Inv(s) && GoodArray(s, a) && GoodArray(s, b) && Separate(a, b)
    ensures g == Grow(s, a, minCapacity, mallocOk) && GrewBeside(s, a, b, minCapacity, g)
  {
    g := Grow(s, a, minCapacity, mallocOk);
    GrowIsGood(s, a, minCapacity, mallocOk);
    GrowLeaves(s, a, b, minCapacity, mallocOk);
  }

  lemma AfterGrowingLeaves(s: State, a: Arr, b: Arr, n: nat, bytes: seq<Byte>, g: (State, Arr, bool))
    requires GoodArray(s, b) && 0 < n && |bytes| == ItemBytes(a.itemSize, n)
    requires GrewBeside(s, a, b, a.count + n, g)
    ensures Leaves(s, b, AfterGrowing(g, n, bytes).0) && Separate(AfterGrowing(g, n, bytes).1, b)
  {
    if g.2 && g.1.base.Some? {
      FillLeaves(g.0, g.1, b, n, bytes);
      LeavesIsTransitive(s, g.0, Filled(g.0, g.1, n, bytes).0, b);
    }
  }

  lemma GrowThenFillLeaves(s: State, a: Arr, b: Arr, n: nat, bytes: seq<Byte>, mallocOk: bool)
    returns (g: (State, Arr, bool))
    requires Inv(s) && GoodArray(s, a) && GoodArray(s, b) && Separate(a, b) && |bytes| == ItemBytes(a.itemSize, n) && 0 < n
    ensures g == Grow(s, a, a.count + n, mallocOk)
    ensures Leaves(s, b, AfterGrowing(g, n, bytes).0) && Separate(AfterGrowing(g, n, bytes).1, b)
  {
    g := GrowsBeside(s, a, b, a.count + n, mallocOk);
    AfterGrowingLeaves(s, a, b, n, bytes, g);
  }

  lemma AppendLeaves(s: State, a: Arr, b: Arr, n: nat, bytes: seq<Byte>, mallocOk: bool)
    requires Inv(s) && GoodArray(s, a) && GoodArray(s, b) && Separate(a, b) && |bytes| == ItemBytes(a.itemSize, n)
    ensures var r := Append(s, a, n, bytes, mallocOk);
      Leaves(s, b, r.0) && Separate(r.1, b)
  {
    if 0 < n <= SIZE_MAX - a.count {
      var g := GrowThenFillLeaves(s, a, b, n, bytes, mallocOk);
    }
    AppendUnfolds(s, a, n, bytes, mallocOk);
  }

  // ---- requests of others ----

  lemma AllocLeaves(s: State, b: Arr, size: nat, mallocOk: bool)
    requires Inv(s) && GoodArray(s, b)
    ensures var r := Alloc(s, size, mallocOk);
      Leaves(s, b, r.0) && (r.1.Some? && b.base.Some? ==> r.1.value != b.base.value)
  {
    ReallocLeaves(s, Empty(1), b, 0, size, mallocOk);
  }

  lemma CleanupLeaves(s: State, b: Arr, callback: nat, mallocOk: bool)
    requires Inv(s) && GoodArray(s, b)
    ensures Leaves(s, b, OnDestroy(s, callback, mallocOk).0)
  {
    AllocLeaves(s, b, CLEANUP_NODE, mallocOk);
  }

  lemma RequestLeaves(s: State, b: Arr, r: Request)
    requires Inv(s) && GoodArray(s, b) && Allowed(s, r)
    requires r.ReallocRequest? && r.ptr.Some? ==> b.base != r.ptr
    ensures Leaves(s, b, Serve(s, r))
  {
    match r
    case AllocRequest(size, mallocOk) => AllocLeaves(s, b, size, mallocOk);
    case CleanupRequest(callback, mallocOk) => CleanupLeaves(s, b, callback, mallocOk);
    case ReallocRequest(ptr, oldSize, newSize, mallocOk) =>
      ReallocLeaves(s, Empty(1).(base := ptr), b, oldSize, newSize, mallocOk);
  }

  // ---- the world ----

  datatype World = World(arena: State, arrays: seq<Arr>)

  datatype Action =
    | AppendTo(k: nat, n: nat, bytes: seq<Byte>, mallocOk: bool)
    | FitArray(k: nat, mallocOk: bool)
    | Other(request: Request)

  ghost predicate GoodWorld(w: World) {
    && Inv(w.arena)
    && (forall k :: 0 <= k < |w.arrays| ==> GoodArray(w.arena, w.arrays[k]))
    && (forall j, k :: 0 <= j < |w.arrays| && 0 <= k < |w.arrays| && j != k ==> Separate(w.arrays[j], w.arrays[k]))
  }

  /** The storage of an array is resized by the operations of the array only. */
  ghost predicate MayDo(w: World, x: Action) {
    match x
    case AppendTo(k, n, bytes, _) => k < |w.arrays| && |bytes| == ItemBytes(w.arrays[k].itemSize, n)
    case FitArray(k, _) => k < |w.arrays|
    case Other(r) =>
      && Allowed(w.arena, r)
      && (r.ReallocRequest? && r.ptr.Some? ==> forall k :: 0 <= k < |w.arrays| ==> w.arrays[k].base != r.ptr)
  }

  function WithArray(w: World, k: nat, r: (State, Arr, bool)): World
    requires k < |w.arrays|
  {
    World(r.0, w.arrays[k := r.1])
  }

  ghost function Perform(w: World, x: Action): World
    requires GoodWorld(w) && MayDo(w, x)
  {
    match x
    case AppendTo(k, n, bytes, mallocOk) => WithArray(w, k, Append(w.arena, w.arrays[k], n, bytes, mallocOk))
    case FitArray(k, mallocOk) => WithArray(w, k, Fit(w.arena, w.arrays[k], mallocOk))
    case Other(r) => w.(arena := Serve(w.arena, r))
  }

  /** The bytes that the action adds to the array j. */
  ghost function Adds(w: World, x: Action, j: nat): seq<Byte>
    requires GoodWorld(w) && MayDo(w, x)
  {
    if x.AppendTo? && x.k == j && Append(w.arena, w.arrays[j], x.n, x.bytes, x.mallocOk).2 then x.bytes else []
  }

  lemma ChangedArrayIsGood(w: World, k: nat, n: nat, bytes: seq<Byte>, r: (State, Arr, bool))
    requires GoodWorld(w) && k < |w.arrays| && Extends(w.arena, w.arrays[k], n, bytes, r)
    requires forall j :: 0 <= j < |w.arrays| && j != k ==> Leaves(w.arena, w.arrays[j], r.0) && Separate(r.1, w.arrays[j])
    ensures GoodWorld(WithArray(w, k, r))
    ensures forall j :: 0 <= j < |w.arrays| ==>
              Contents(r.0.memory, WithArray(w, k, r).arrays[j]) ==
              Contents(w.arena.memory, w.arrays[j]) + if j == k && r.2 then bytes else []
  {
  }

  /** w' has the arrays of w, with the bytes that the action adds. */
  ghost predicate Follows(w: World, x: Action, w': World)
    requires GoodWorld(w) && MayDo(w, x)
  {
    && GoodWorld(w') && |w'.arrays| == |w.arrays|
    && forall j :: 0 <= j < |w.arrays| ==>
         && w'.arrays[j].itemSize == w.arrays[j].itemSize
         && Contents(w'.arena.memory, w'.arrays[j]) == Contents(w.arena.memory, w.arrays[j]) + Adds(w, x, j)
  }

  lemma AppendFollows(w: World, x: Action)
    requires GoodWorld(w) && MayDo(w, x) && x.AppendTo?
    ensures Follows(w, x, Perform(w, x))
  {
    var a := w.arrays[x.k];
    var r := Append(w.arena, a, x.n, x.bytes, x.mallocOk);
    AppendIsGood(w.arena, a, x.n, x.bytes, x.mallocOk);
    forall j | 0 <= j < |w.arrays| && j != x.k
      ensures Leaves(w.arena, w.arrays[j], r.0) && Separate(r.1, w.arrays[j])
    {
      AppendLeaves(w.arena, a, w.arrays[j], x.n, x.bytes, x.mallocOk);
    }
    ChangedArrayIsGood(w, x.k, x.n, x.bytes, r);
  }

  lemma FitFollows(w: World, x: Action)
    requires GoodWorld(w) && MayDo(w, x) && x.FitArray?
    ensures Follows(w, x, Perform(w, x))
  {
    var a := w.arrays[x.k];
    var r := Fit(w.arena, a, x.mallocOk);
    FitIsGood(w.arena, a, x.mallocOk);
    forall j | 0 <= j < |w.arrays| && j != x.k
      ensures Leaves(w.arena, w.arrays[j], r.0) && Separate(r.1, w.arrays[j])
    {
      FitLeaves(w.arena, a, w.arrays[j], x.mallocOk);
    }
    KeepsIsExtends(w.arena, a, r);
    ChangedArrayIsGood(w, x.k, 0, [], r);
  }

  lemma OtherFollows(w: World, x: Action)
    requires GoodWorld(w) && MayDo(w, x) && x.Other?
    ensures Follows(w, x, Perform(w, x))
  {
    ServeKeepsInv(w.arena, x.request);
    forall j | 0 <= j < |w.arrays| ensures Leaves(w.arena, w.arrays[j], Serve(w.arena, x.request)) {
      RequestLeaves(w.arena, w.arrays[j], x.request);
    }
  }

  /** Every action keeps the world in order, and every array but its own unchanged. */
  lemma PerformFollows(w: World, x: Action)
    requires GoodWorld(w) && MayDo(w, x)
    ensures Follows(w, x, Perform(w, x))
  {
    match x
    case AppendTo(_, _, _, _) => AppendFollows(w, x);
    case FitArray(_, _) => FitFollows(w, x);
    case Other(_) => OtherFollows(w, x);
  }

  // ---- runs ----

  ghost predicate MayRun(w: World, xs: seq<Action>)
    requires GoodWorld(w)
    decreases |xs|
  {
    xs != [] ==> MayDo(w, xs[0]) && (PerformFollows(w, xs[0]); MayRun(Perform(w, xs[0]), xs[1..]))
  }

  ghost function RunAll(w: World, xs: seq<Action>): (w': World)
    requires GoodWorld(w) && MayRun(w, xs)
    ensures |w'.arrays| == |w.arrays|
    decreases |xs|
  {
    if xs == [] then w else PerformFollows(w, xs[0]); RunAll(Perform(w, xs[0]), xs[1..])
  }

  /** What a run appends to the array j, one append after the other. */
  ghost function AllAdded(w: World, xs: seq<Action>, j: nat): seq<Byte>
    requires GoodWorld(w) && MayRun(w, xs)
    decreases |xs|
  {
    if xs == [] then []
    else PerformFollows(w, xs[0]); Adds(w, xs[0], j) + AllAdded(Perform(w, xs[0]), xs[1..], j)
  }

  /** A growable array refines a sequence: however appends to several arrays, fits, plain
      allocations, resizings and cleanups are interleaved, each array holds what was
      appended to it, in order. */
  lemma {:induction false} ArraysAreSequences(w: World, xs: seq<Action>, j: nat)
    requires GoodWorld(w) && MayRun(w, xs) && j < |w.arrays|
    ensures var w' := RunAll(w, xs);
      && GoodWorld(w') && |w'.arrays| == |w.arrays|
      && Contents(w'.arena.memory, w'.arrays[j]) == Contents(w.arena.memory, w.arrays[j]) + AllAdded(w, xs, j)
      && w'.arrays[j].count <= w'.arrays[j].capacity
    decreases |xs|
  {
    if xs != [] {
      var next := Perform(w, xs[0]);
      PerformFollows(w, xs[0]);
      ArraysAreSequences(next, xs[1..], j);
      Assoc(Contents(w.arena.memory, w.arrays[j]), Adds(w, xs[0], j), AllAdded(next, xs[1..], j));
    }
  }

  // ---- the cost of growing ----

  /** Eight times a power of two. */
  predicate Geometric(capacity: nat) {
    capacity == INIT_CAPACITY || (capacity > INIT_CAPACITY && capacity % 2 == 0 && Geometric(capacity / 2))
  }

  /** No slot pays for more than its own move and that of one other slot. */
  predicate Amortised(a: Arr) {
    if a.count == 0 then a == Empty(a.itemSize)
    else
      && Geometric(a.capacity)
      && a.count <= a.capacity && (a.capacity == INIT_CAPACITY || a.capacity < 2 * a.count)
      && a.moved + INIT_CAPACITY <= a.capacity
  }

  lemma TwiceIsGeometric(capacity: nat)
    requires Geometric(capacity)
    ensures Geometric(capacity * 2)
  {
    assert capacity * 2 / 2 == capacity;
  }

  lemma {:induction false} DoubledIsGeometric(capacity: nat, minCapacity: nat)
    requires Geometric(capacity) && capacity < minCapacity <= SIZE_MAX / 2 + 1
    ensures var grown := Doubled(capacity, minCapacity);
      Geometric(grown) && 2 * capacity <= grown < 2 * minCapacity
    decreases minCapacity - capacity
  {
    TwiceIsGeometric(capacity);
    if capacity * 2 < minCapacity {
      DoubledIsGeometric(capacity * 2, minCapacity);
    }
  }

  lemma GrownIsGeometric(a: Arr, minCapacity: nat)
    requires a.capacity == 0 || Geometric(a.capacity)
    requires a.capacity < minCapacity <= SIZE_MAX / 2 + 1
    ensures var grown := GrownCapacity(a, minCapacity);
      Geometric(grown) && 2 * a.capacity <= grown && (grown == INIT_CAPACITY || grown < 2 * minCapacity)
  {
    if a.capacity > 0 {
      DoubledIsGeometric(a.capacity, minCapacity);
    } else if INIT_CAPACITY < minCapacity {
      DoubledIsGeometric(INIT_CAPACITY, minCapacity);
    }
  }

  /** Items of two or more bytes run out of addresses before doubling overflows. */
  lemma WideItemsStayShort(itemSize: nat, items: nat)
    requires itemSize >= 2 && ArraySize(itemSize, items) <= SIZE_MAX
    ensures items <= SIZE_MAX / 2
  {
    ItemBytesIsProduct(itemSize, items);
    ProductMonotone(2, itemSize, items);
  }

  /** What a successful or a refused append makes of the header. */
  ghost predicate Outcome(a: Arr, n: nat, r: Arr) {
    || r == a
    || (&& 0 < n && r.itemSize == a.itemSize && r.count == a.count + n
        && if r.count <= a.capacity then r.capacity == a.capacity && r.moved == a.moved
           else && r.capacity == GrownCapacity(a, r.count) && r.moved <= a.moved + a.capacity
                && ArraySize(a.itemSize, r.capacity) <= SIZE_MAX)
  }

  lemma GrowOutcome(s: State, a: Arr, minCapacity: nat, mallocOk: bool)
    requires s.Shaped() && a.itemSize > 0
    ensures var g := Grow(s, a, minCapacity, mallocOk);
      if !g.2 || minCapacity <= a.capacity then g.1 == a
      else
        && g.1.base.Some? && g.1.count == a.count && g.1.itemSize == a.itemSize
        && g.1.capacity == GrownCapacity(a, minCapacity) && g.1.moved <= a.moved + a.capacity
        && ArraySize(a.itemSize, g.1.capacity) <= SIZE_MAX
  {
  }

  lemma FillOutcome(a: Arr, n: nat, bytes: seq<Byte>, g: (State, Arr, bool))
    requires 0 < n
    requires if !g.2 || a.count + n <= a.capacity then g.1 == a
             else && g.1.base.Some? && g.1.count == a.count && g.1.itemSize == a.itemSize
                  && g.1.capacity == GrownCapacity(a, a.count + n) && g.1.moved <= a.moved + a.capacity
                  && ArraySize(a.itemSize, g.1.capacity) <= SIZE_MAX
    ensures Outcome(a, n, AfterGrowing(g, n, bytes).1)
  {
  }

  lemma AppendOutcome(s: State, a: Arr, n: nat, bytes: seq<Byte>, mallocOk: bool)
    requires s.Shaped() && a.itemSize > 0 && |bytes| == ItemBytes(a.itemSize, n)
    ensures Outcome(a, n, Append(s, a, n, bytes, mallocOk).1)
  {
    if 0 < n <= SIZE_MAX - a.count {
      GrowOutcome(s, a, a.count + n, mallocOk);
      FillOutcome(a, n, bytes, Grow(s, a, a.count + n, mallocOk));
    }
    AppendUnfolds(s, a, n, bytes, mallocOk);
  }

  lemma OutcomeStaysAmortised(a: Arr, n: nat, r: Arr)
    requires Amortised(a) && Outcome(a, n, r) && (a.itemSize >= 2 || r.count <= SIZE_MAX / 2 + 1)
    ensures Amortised(r)
  {
    if r != a && r.count > a.capacity {
      if a.itemSize >= 2 {
        WideItemsStayShort(a.itemSize, r.capacity);
      }
      GrownIsGeometric(a, r.count);
    }
  }

  ghost predicate NeverFits(xs: seq<Action>, j: nat) {
    forall i :: 0 <= i < |xs| && xs[i].FitArray? ==> xs[i].k != j
  }

  lemma {:induction false} CountNeverFalls(w: World, xs: seq<Action>, j: nat)
    requires GoodWorld(w) && MayRun(w, xs) && j < |w.arrays|
    ensures w.arrays[j].count <= RunAll(w, xs).arrays[j].count
    decreases |xs|
  {
    if xs != [] {
      PerformFollows(w, xs[0]);
      CountNeverFallsOnce(w, xs[0], j);
      CountNeverFalls(Perform(w, xs[0]), xs[1..], j);
    }
  }

  lemma CountNeverFallsOnce(w: World, x: Action, j: nat)
    requires GoodWorld(w) && MayDo(w, x) && j < |w.arrays|
    ensures w.arrays[j].count <= Perform(w, x).arrays[j].count
  {
    match x
    case AppendTo(k, n, bytes, mallocOk) => AppendIsGood(w.arena, w.arrays[k], n, bytes, mallocOk);
    case FitArray(k, mallocOk) => FitIsGood(w.arena, w.arrays[k], mallocOk);
    case Other(_) =>
  }

  lemma {:induction false} AppendsStayAmortised(w: World, xs: seq<Action>, j: nat)
    requires GoodWorld(w) && MayRun(w, xs) && j < |w.arrays| && Amortised(w.arrays[j]) && NeverFits(xs, j)
    requires w.arrays[j].itemSize >= 2 || RunAll(w, xs).arrays[j].count <= SIZE_MAX / 2 + 1
    ensures Amortised(RunAll(w, xs).arrays[j])
    decreases |xs|
  {
    if xs != [] {
      var x, next := xs[0], Perform(w, xs[0]);
      PerformFollows(w, x);
      CountNeverFalls(next, xs[1..], j);
      assert NeverFits(xs[1..], j) by {
        assert forall i :: 0 <= i < |xs| - 1 ==> xs[1..][i] == xs[i + 1];
      }
      if x.AppendTo? && x.k == j {
        AppendOutcome(w.arena, w.arrays[j], x.n, x.bytes, x.mallocOk);
        OutcomeStaysAmortised(w.arrays[j], x.n, next.arrays[j]);
      }
      AppendsStayAmortised(next, xs[1..], j);
    }
  }

  /** Growing an array from nothing, in whatever company, copies less than two slots an item,
      and its capacity stays eight times a power of two. */
  lemma GrowthIsAmortised(w: World, xs: seq<Action>, j: nat)
    requires GoodWorld(w) && MayRun(w, xs) && j < |w.arrays| && NeverFits(xs, j)
    requires w.arrays[j] == Empty(w.arrays[j].itemSize)
    requires w.arrays[j].itemSize >= 2 || RunAll(w, xs).arrays[j].count <= SIZE_MAX / 2 + 1
    ensures var a := RunAll(w, xs).arrays[j];
      a.count > 0 ==> a.moved < 2 * a.count && Geometric(a.capacity) && a.count <= a.capacity
  {
    AppendsStayAmortised(w, xs, j);
  }

  // ---- from the beginning ----

  /** A new arena, and an array without storage for each of the item sizes. */
  ghost function NewWorld(initialCapacity: nat, memory: Memory, itemSizes: seq<nat>): (w: World)
    requires initialCapacity + BLOCK_HEADER <= SIZE_MAX
    requires forall k :: 0 <= k < |itemSizes| ==> itemSizes[k] > 0
    ensures GoodWorld(w) && |w.arrays| == |itemSizes|
    ensures forall k :: 0 <= k < |itemSizes| ==> w.arrays[k] == Empty(itemSizes[k])
  {
    CreatedHasInv(initialCapacity, memory);
    World(Created(initialCapacity, memory), seq(|itemSizes|, k requires 0 <= k < |itemSizes| => Empty(itemSizes[k])))
  }

  /** Whatever happens in a new arena, each array holds exactly what was appended to it; if it
      was never fitted, it has copied less than two slots an item. */
  lemma ArraysFromTheBeginning(initialCapacity: nat, memory: Memory, itemSizes: seq<nat>, xs: seq<Action>, j: nat)
    requires initialCapacity + BLOCK_HEADER <= SIZE_MAX && j < |itemSizes|
    requires forall k :: 0 <= k < |itemSizes| ==> itemSizes[k] > 0
    requires MayRun(NewWorld(initialCapacity, memory, itemSizes), xs)
    ensures var w := NewWorld(initialCapacity, memory, itemSizes);
      var w' := RunAll(w, xs);
      var a := w'.arrays[j];
      && Contents(w'.arena.memory, a) == AllAdded(w, xs, j)
      && a.count <= a.capacity
      && (NeverFits(xs, j) && (itemSizes[j] >= 2 || a.count <= SIZE_MAX / 2 + 1) && a.count > 0 ==>
            a.moved < 2 * a.count && Geometric(a.capacity))
  {
    var w := NewWorld(initialCapacity, memory, itemSizes);
    ArraysAreSequences(w, xs, j);
    assert Contents(w.arena.memory, w.arrays[j]) == [];
    if NeverFits(xs, j) && (itemSizes[j] >= 2 || RunAll(w, xs).arrays[j].count <= SIZE_MAX / 2 + 1) {
      GrowthIsAmortised(w, xs, j);
    }
  }
}
