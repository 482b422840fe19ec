/** Whole runs of an arena: what holds after any sequence of calls, and what a mark with the
    matching rewind restores. */
module ArenaRuns {
  import opened Ids
  import opened Sequences
  import opened Arenas

  datatype Request =
    | AllocRequest(size: nat, mallocOk: bool)
    | ReallocRequest(ptr: Option<Ptr>, oldSize: nat, newSize: nat, mallocOk: bool)
    | CleanupRequest(callback: nat, mallocOk: bool)

  function Serve(s: State, r: Request): (s': State)
    requires s.Shaped()
    ensures s'.Shaped()
  {
    match r
    case AllocRequest(size, mallocOk) => Alloc(s, size, mallocOk).0
    case ReallocRequest(ptr, oldSize, newSize, mallocOk) => ReallocLast(s, ptr, oldSize, newSize, mallocOk).0
    case CleanupRequest(callback, mallocOk) => OnDestroy(s, callback, mallocOk).0
  }

  /** A caller resizes only storage of its own. */
  ghost predicate Allowed(s: State, r: Request) {
    r.ReallocRequest? && r.ptr.Some? ==> Owns(s, r.ptr.value, r.oldSize)
  }

  lemma ServeKeepsInv(s: State, r: Request)
    requires Inv(s) && Allowed(s, r)
    ensures Inv(Serve(s, r))
  {
    match r
    case AllocRequest(size, mallocOk) => AllocKeepsInv(s, size, mallocOk);
    case ReallocRequest(ptr, oldSize, newSize, mallocOk) => ReallocKeepsInv(s, ptr, oldSize, newSize, mallocOk);
    case CleanupRequest(callback, mallocOk) => OnDestroyKeepsInv(s, callback, mallocOk);
  }

  lemma ServeConserves(s: State, r: Request)
    requires s.Shaped() && Conserved(s)
    ensures Conserved(Serve(s, r))
  {
    match r
    case AllocRequest(size, mallocOk) => AllocConserves(s, size, mallocOk);
    case ReallocRequest(ptr, oldSize, newSize, mallocOk) => ReallocConserves(s, ptr, oldSize, newSize, mallocOk);
    case CleanupRequest(callback, mallocOk) => OnDestroyConserves(s, callback, mallocOk);
  }

  // ---- runs with marks and rewinds in any order ----

  datatype Call = Ask(request: Request) | TakeMark | RewindTo(k: nat) | ResetAll

  datatype Session = Session(arena: State, marks: seq<Mark>)

  /** A rewind names one of the marks taken so far, however old. */
  ghost predicate MayCall(x: Session, c: Call) {
    && (c.Ask? ==> Allowed(x.arena, c.request))
    && (c.RewindTo? ==> c.k < |x.marks|)
  }

  function After(x: Session, c: Call): Session
    requires x.arena.Shaped() && (c.RewindTo? ==> c.k < |x.marks|)
  {
    match c
    case Ask(request) => x.(arena := Serve(x.arena, request))
    case TakeMark => x.(marks := x.marks + [MarkOf(x.arena)])
    case RewindTo(k) => x.(arena := Rewind(x.arena, x.marks[k]))
    case ResetAll => x.(arena := Reset(x.arena))
  }

  ghost predicate GoodSession(x: Session) {
    Inv(x.arena) && Conserved(x.arena) && forall i :: 0 <= i < |x.marks| ==> GoodMark(x.marks[i])
  }

  lemma CallKeepsGood(x: Session, c: Call)
    requires GoodSession(x) && MayCall(x, c)
    ensures GoodSession(After(x, c))
  {
    match c
    case Ask(request) => ServeKeepsInv(x.arena, request); ServeConserves(x.arena, request);
    case TakeMark => MarkIsGood(x.arena);
    case RewindTo(k) => RewindKeepsInv(x.arena, x.marks[k]); RewindConserves(x.arena, x.marks[k]);
    case ResetAll => ResetKeepsInv(x.arena); ResetConserves(x.arena);
  }

  /** x' is reached from x by the calls. */
  ghost predicate Reaches(x: Session, calls: seq<Call>, x': Session)
    decreases |calls|
  {
    if calls == [] then x == x'
    else x.arena.Shaped() && MayCall(x, calls[0]) && Reaches(After(x, calls[0]), calls[1..], x')
  }

  lemma {:induction false} ReachableIsGood(x: Session, calls: seq<Call>, x': Session)
    requires GoodSession(x) && Reaches(x, calls, x')
    ensures GoodSession(x')
    decreases |calls|
  {
    if calls != [] {
      CallKeepsGood(x, calls[0]);
      ReachableIsGood(After(x, calls[0]), calls[1..], x');
    }
  }

  /** After any run of a new arena no two live allocations overlap, and each lies, aligned, in
      the used part of its block. */
  lemma LiveAllocationsNeverOverlap(initialCapacity: nat, memory: Memory, calls: seq<Call>, x: Session, i: nat, j: nat)
    requires initialCapacity + BLOCK_HEADER <= SIZE_MAX
    requires Reaches(Session(Created(initialCapacity, memory), []), calls, x)
    requires i < |x.arena.taken| && j < |x.arena.taken| && i != j
    ensures var a := x.arena.taken[i];
      && !Overlap(a, x.arena.taken[j])
      && a.ptr.block < |x.arena.blocks|
      && a.ptr.offset % ALIGNMENT == 0
      && a.ptr.offset + a.size <= x.arena.blocks[a.ptr.block].used <= x.arena.blocks[a.ptr.block].capacity
  {
    CreatedHasInv(initialCapacity, memory);
    ReachableIsGood(Session(Created(initialCapacity, memory), []), calls, x);
    TakenIsDisjoint(x.arena, i, j);
  }

  // ---- contents ----

  ghost predicate SameBytes(m: Memory, m': Memory, e: Extent) {
    forall p: Ptr :: p.block == e.ptr.block && e.ptr.offset <= p.offset < e.ptr.offset + e.size ==> m'(p) == m(p)
  }

  lemma CopyMissesOthers(m: Memory, to: Ptr, from: Ptr, count: nat, e: Extent, size: nat)
    requires !Overlap(e, Extent(to, size)) && count <= size
    ensures SameBytes(m, Copied(m, to, from, count), e)
  {
  }

  /** The extents of s are those of s', but for the new one at the end of s'. */
  lemma NewExtentMissesOthers(s: State, s': State, added: Extent, e: Extent)
    requires Inv(s') && s'.taken == s.taken + [added] && e in s.taken
    ensures !Overlap(e, added)
  {
    var k :| 0 <= k < |s.taken| && s.taken[k] == e;
    assert s'.taken[k] == e && s'.taken[|s.taken|] == added;
    TakenIsDisjoint(s', k, |s.taken|);
  }

  lemma RelocateKeepsBytes(s: State, ptr: Ptr, oldSize: nat, newSize: nat, size: nat, mallocOk: bool, e: Extent)
    requires Inv(s) && e in s.taken && 0 < newSize <= size <= SIZE_MAX && size % ALIGNMENT == 0
    ensures SameBytes(s.memory, Relocate(s, ptr, oldSize, newSize, size, mallocOk).0.memory, e)
  {
    var (s', moved) := AllocAligned(s, size, mallocOk);
    AllocAlignedAppends(s, size, mallocOk);
    AllocAlignedKeepsInv(s, size, mallocOk);
    if moved.Some? {
      NewExtentMissesOthers(s, s', Extent(moved.value, size), e);
      CopyMissesOthers(s.memory, moved.value, ptr, Min(Min(oldSize, newSize), Readable(s'.blocks, ptr)), e, size);
    }
  }

  lemma ReallocKeepsBytes(s: State, ptr: Option<Ptr>, oldSize: nat, newSize: nat, mallocOk: bool, e: Extent)
    requires Inv(s) && e in s.taken
    ensures SameBytes(s.memory, ReallocLast(s, ptr, oldSize, newSize, mallocOk).0.memory, e)
  {
    if newSize > 0 && AlignUp(newSize).Some? {
      AllocAlignedAppends(s, AlignUp(newSize).value, mallocOk);
      if ptr.Some? {
        RelocateKeepsBytes(s, ptr.value, oldSize, newSize, AlignUp(newSize).value, mallocOk, e);
      }
    }
  }

  /** No request changes a byte of storage that is already handed out. */
  lemma ServeKeepsBytes(s: State, r: Request, e: Extent)
    requires Inv(s) && e in s.taken
    ensures SameBytes(s.memory, Serve(s, r).memory, e)
  {
    match r
    case AllocRequest(size, mallocOk) =>
    case CleanupRequest(callback, mallocOk) =>
    case ReallocRequest(ptr, oldSize, newSize, mallocOk) => ReallocKeepsBytes(s, ptr, oldSize, newSize, mallocOk, e);
  }

  function At(m: Memory, p: Ptr, i: nat): Byte {
    m(Ptr(p.block, p.offset + i))
  }

  ghost predicate SamePrefix(m: Memory, p: Ptr, m': Memory, p': Ptr, count: nat) {
    forall i: nat :: i < count ==> At(m', p', i) == At(m, p, i)
  }

  lemma CopyGivesPrefix(m: Memory, to: Ptr, from: Ptr, count: nat)
    ensures SamePrefix(m, from, Copied(m, to, from, count), to, count)
  {
  }

  lemma OwnedIsReadable(s: State, s': State, ptr: Ptr, oldSize: nat)
    requires Owns(s, ptr, oldSize) && Inv(s') && |s'.taken| >= |s.taken| && s'.taken[..|s.taken|] == s.taken
    ensures Readable(s'.blocks, ptr) >= oldSize
  {
    var k :| 0 <= k < |s.taken| && s.taken[k].ptr == ptr && (oldSize == 0 || AlignUp(oldSize) == Some(s.taken[k].size));
    assert s'.taken[k] == s.taken[k];
  }

  lemma RelocateKeepsContents(s: State, ptr: Ptr, oldSize: nat, newSize: nat, size: nat, mallocOk: bool)
    requires Inv(s) && Owns(s, ptr, oldSize) && 0 < newSize <= size <= SIZE_MAX && size % ALIGNMENT == 0
    ensures var (s', ptr') := Relocate(s, ptr, oldSize, newSize, size, mallocOk);
      ptr'.Some? ==>
        && s'.taken == s.taken + [Extent(ptr'.value, size)]
        && SamePrefix(s.memory, ptr, s'.memory, ptr'.value, Min(oldSize, newSize))
  {
    AllocAlignedAppends(s, size, mallocOk);
    AllocAlignedKeepsInv(s, size, mallocOk);
    var (s1, moved) := AllocAligned(s, size, mallocOk);
    if moved.Some? {
      assert s1.taken[..|s.taken|] == s.taken;
      OwnedIsReadable(s, s1, ptr, oldSize);
      CopyGivesPrefix(s.memory, moved.value, ptr, Min(oldSize, newSize));
    }
  }

  /** A resized allocation keeps its bytes up to the smaller of the two sizes, wherever it is
      put, and gets room for the new size. */
  lemma ReallocKeepsContents(s: State, ptr: Ptr, oldSize: nat, newSize: nat, mallocOk: bool)
    requires Inv(s) && Owns(s, ptr, oldSize)
    ensures var (s', ptr') := ReallocLast(s, Some(ptr), oldSize, newSize, mallocOk);
      ptr'.Some? ==>
        && AlignUp(newSize).Some?
        && Extent(ptr'.value, AlignUp(newSize).value) in s'.taken
        && SamePrefix(s.memory, ptr, s'.memory, ptr'.value, Min(oldSize, newSize))
  {
    if ResizesInPlace(s, ptr, oldSize, newSize) {
      InPlaceIsLast(s, ptr, oldSize, newSize);
    } else if newSize > 0 && AlignUp(newSize).Some? {
      RelocateKeepsContents(s, ptr, oldSize, newSize, AlignUp(newSize).value, mallocOk);
    }
  }

  /** No call of the run gives the extent back or resizes it. */
  ghost predicate StaysTaken(x: Session, calls: seq<Call>, e: Extent)
    decreases |calls|
  {
    && e in x.arena.taken
    && (calls != [] ==> x.arena.Shaped() && MayCall(x, calls[0]) && StaysTaken(After(x, calls[0]), calls[1..], e))
  }

  /** As long as storage is not given back, its bytes are those its owner wrote, whatever else
      is allocated, resized, rewound or reset. */
  lemma {:induction false} BytesSurvive(x: Session, calls: seq<Call>, x': Session, e: Extent)
    requires GoodSession(x) && Reaches(x, calls, x') && StaysTaken(x, calls, e)
    ensures SameBytes(x.arena.memory, x'.arena.memory, e)
    decreases |calls|
  {
    if calls != [] {
      CallKeepsGood(x, calls[0]);
      if calls[0].Ask? {
        ServeKeepsBytes(x.arena, calls[0].request, e);
      }
      BytesSurvive(After(x, calls[0]), calls[1..], x', e);
    }
  }

  // ---- nested scopes ----

  /** A program with well-nested scopes: each takes a mark, runs, and rewinds to the mark. */
  datatype Program =
    | Done
    | Do(request: Request, rest: Program)
    | Scope(inner: Program, rest: Program)

  function Exec(s: State, p: Program): (s': State)
    requires s.Shaped()
    ensures s'.Shaped()
    decreases p
  {
    match p
    case Done => s
    case Do(request, rest) => Exec(Serve(s, request), rest)
    case Scope(inner, rest) => Exec(Rewind(Exec(s, inner), MarkOf(s)), rest)
  }

  ghost predicate Legal(s: State, p: Program)
    requires s.Shaped()
    decreases p
  {
    match p
    case Done => true
    case Do(request, rest) => Allowed(s, request) && Legal(Serve(s, request), rest)
    case Scope(inner, rest) => Legal(s, inner) && Legal(Rewind(Exec(s, inner), MarkOf(s)), rest)
  }

  /** s' differs from s only from the current position of s on: what a run without rewinds
      behind its beginning can do. */
  ghost predicate Above(s: State, s': State)
    requires s.Shaped()
  {
    && |s.blocks| <= |s'.blocks|
    && s.current <= s'.current
    && s.minBlockSize == s'.minBlockSize
    && (forall i :: 0 <= i < |s.blocks| ==> s'.blocks[i].capacity == s.blocks[i].capacity)
    && (forall i :: 0 <= i < s.current ==> s'.blocks[i].used == s.blocks[i].used)
    && |s.cleanups| <= |s'.cleanups| && s'.cleanups[|s'.cleanups| - |s.cleanups|..] == s.cleanups
  }

  lemma AboveIsTransitive(s: State, t: State, u: State)
    requires s.Shaped() && t.Shaped() && Above(s, t) && Above(t, u)
    ensures Above(s, u)
  {
    var n := |u.cleanups|;
    assert u.cleanups[n - |s.cleanups|..] == u.cleanups[n - |t.cleanups|..][|t.cleanups| - |s.cleanups|..];
  }

  lemma TakeIsAbove(s: State, blocks: seq<Block>, place: nat, size: nat)
    requires s.current <= place < |blocks| && s.Shaped()
    requires |s.blocks| <= |blocks| && forall i :: 0 <= i < |s.blocks| ==> blocks[i] == s.blocks[i]
    ensures Above(s, Take(s, blocks, place, size).0)
  {
    assert s.cleanups[0..] == s.cleanups;
  }

  lemma AllocAlignedIsAbove(s: State, size: nat, mallocOk: bool)
    requires s.Shaped()
    ensures Above(s, AllocAligned(s, size, mallocOk).0)
  {
    if FitsIn(s.blocks[s.current], size) {
      TakeIsAbove(s, s.blocks, s.current, size);
    } else if FirstFit(s.blocks, s.current + 1, size).Some? {
      TakeIsAbove(s, s.blocks, FirstFit(s.blocks, s.current + 1, size).value, size);
    } else {
      var capacity := NewCapacity(s.blocks[s.current].capacity, size, s.minBlockSize);
      if CanCreate(capacity, mallocOk) {
        TakeIsAbove(s, s.blocks + [Block(capacity, 0)], |s.blocks|, size);
      }
    }
  }

  lemma AllocIsAbove(s: State, size: nat, mallocOk: bool)
    requires s.Shaped()
    ensures Above(s, Alloc(s, size, mallocOk).0)
  {
    if AlignUp(size).Some? {
      AllocAlignedIsAbove(s, AlignUp(size).value, mallocOk);
    }
  }

  lemma RelocateIsAbove(s: State, ptr: Ptr, oldSize: nat, newSize: nat, size: nat, mallocOk: bool)
    requires s.Shaped()
    ensures Above(s, Relocate(s, ptr, oldSize, newSize, size, mallocOk).0)
  {
    AllocAlignedIsAbove(s, size, mallocOk);
  }

  lemma ResizedIsAbove(s: State, used: nat, taken: seq<Extent>)
    requires s.Shaped()
    ensures Above(s, s.(blocks := s.blocks[s.current := s.blocks[s.current].(used := used)], taken := taken))
  {
  }

  lemma ReallocIsAbove(s: State, ptr: Option<Ptr>, oldSize: nat, newSize: nat, mallocOk: bool)
    requires s.Shaped()
    ensures Above(s, ReallocLast(s, ptr, oldSize, newSize, mallocOk).0)
  {
    if ptr.None? {
      AllocIsAbove(s, newSize, mallocOk);
    } else if newSize > 0 && AlignUp(oldSize).Some? && AlignUp(newSize).Some? {
      var b, oldAligned, newAligned := s.blocks[s.current], AlignUp(oldSize).value, AlignUp(newSize).value;
      if FitsInPlace(b, s.current, ptr.value, oldAligned, newAligned) {
        ResizedIsAbove(s, b.used - oldAligned + newAligned, Resized(s.taken, ptr.value, newAligned));
      } else {
        RelocateIsAbove(s, ptr.value, oldSize, newSize, newAligned, mallocOk);
      }
    }
  }

  lemma OnDestroyIsAbove(s: State, callback: nat, mallocOk: bool)
    requires s.Shaped()
    ensures Above(s, OnDestroy(s, callback, mallocOk).0)
  {
    AllocIsAbove(s, CLEANUP_NODE, mallocOk);
  }

  lemma ServeIsAbove(s: State, r: Request)
    requires s.Shaped()
    ensures Above(s, Serve(s, r))
  {
    match r
    case AllocRequest(size, mallocOk) => AllocIsAbove(s, size, mallocOk);
    case ReallocRequest(ptr, oldSize, newSize, mallocOk) => ReallocIsAbove(s, ptr, oldSize, newSize, mallocOk);
    case CleanupRequest(callback, mallocOk) => OnDestroyIsAbove(s, callback, mallocOk);
  }

  /** The search for the mark's cleanup stops where the cleanups of the mark begin: nodes are
      distinct, because their storage is. */
  lemma CountsTheNewOnes(s: State, s': State)
    requires Inv(s) && Inv(s') && Above(s, s')
    ensures CountUntil(s'.cleanups, MarkOf(s).cleanupHead) == |s'.cleanups| - |s.cleanups|
  {
    var n := |s'.cleanups| - |s.cleanups|;
    var stop := MarkOf(s).cleanupHead;
    if s.cleanups != [] {
      assert s'.cleanups[n] == s.cleanups[0];
      forall i | 0 <= i < n ensures s'.cleanups[i].node != s'.cleanups[n].node {
        assert Precedes(NodeExtent(s'.cleanups[n].node), NodeExtent(s'.cleanups[i].node));
      }
    }
    CountUntilIs(s'.cleanups, stop, n);
  }

  lemma CountUntilIs(cleanups: seq<Cleanup>, stop: Option<Ptr>, n: nat)
    requires n <= |cleanups| && (n < |cleanups| ==> stop == Some(cleanups[n].node))
    requires n == |cleanups| ==> stop.None?
    requires forall i :: 0 <= i < n ==> stop != Some(cleanups[i].node)
    ensures CountUntil(cleanups, stop) == n
  {
  }

  /** The blocks that existed are as before, those added since are empty. */
  ghost predicate SameBlocks(blocks: seq<Block>, blocks': seq<Block>) {
    && |blocks| <= |blocks'|
    && blocks'[..|blocks|] == blocks
    && forall i :: |blocks| <= i < |blocks'| ==> blocks'[i].used == 0
  }

  lemma {:induction false} SameBlocksSameSum(blocks: seq<Block>, blocks': seq<Block>)
    requires SameBlocks(blocks, blocks')
    ensures SumUsed(blocks) == SumUsed(blocks')
    decreases |blocks|
  {
    if blocks == [] {
      NothingUsed(blocks');
    } else {
      assert blocks'[0] == blocks'[..|blocks|][0];
      assert blocks'[1..][..|blocks| - 1] == blocks'[..|blocks|][1..];
      SameBlocksSameSum(blocks[1..], blocks'[1..]);
    }
  }

  lemma RewoundBlocks(blocks: seq<Block>, current: nat, blocks': seq<Block>)
    requires GoodBlocks(blocks, current) && |blocks| <= |blocks'|
    requires forall i :: 0 <= i < |blocks| ==> blocks'[i].capacity == blocks[i].capacity
    requires forall i :: 0 <= i < current ==> blocks'[i].used == blocks[i].used
    ensures SameBlocks(blocks,
                       ClearedFrom(blocks'[current := blocks'[current].(used := blocks[current].used)], current + 1))
  {
    var r := ClearedFrom(blocks'[current := blocks'[current].(used := blocks[current].used)], current + 1);
    forall i | 0 <= i < |blocks| ensures r[i] == blocks[i] {
    }
  }

  /** What the rewind to a mark of s leaves of s'. */
  function Rewound(s: State, s': State): State
    requires s.Shaped() && s.current < |s'.blocks| && |s.cleanups| <= |s'.cleanups|
  {
    var added := |s'.cleanups| - |s.cleanups|;
    var used := s.blocks[s.current].used;
    RunCleanups(s', added).(
      blocks := ClearedFrom(s'.blocks[s.current := s'.blocks[s.current].(used := used)], s.current + 1),
      current := s.current,
      taken := Below(s'.taken, s.current, used))
  }

  lemma RewindIsRewound(s: State, s': State)
    requires Inv(s) && Inv(s') && Above(s, s')
    ensures Rewind(s', MarkOf(s)) == Rewound(s, s')
  {
    CountsTheNewOnes(s, s');
  }

  lemma RewoundCleanups(s: State, s': State)
    requires s.Shaped() && Above(s, s')
    ensures Rewound(s, s').cleanups == s.cleanups
    ensures Rewound(s, s').fired == s'.fired + Callbacks(s'.cleanups[..|s'.cleanups| - |s.cleanups|])
  {
  }

  lemma StillTaken(s: State, s': State)
    requires Inv(s) && Inv(s') && Above(s, s')
    ensures forall e :: e in s.taken && e in s'.taken ==> e in Rewound(s, s').taken
  {
    forall e | e in s.taken && e in s'.taken ensures e in Rewound(s, s').taken {
      BelowKeepsAll(s'.taken, e, s.current, s.blocks[s.current].used);
    }
  }

  /** The rewind that ends a scope brings back the position, the cleanups and the used parts of
      all blocks; it runs exactly the cleanups that were added and still wait, newest first;
      and storage handed out before the mark is still there. */
  lemma RewindRestores(s: State, s': State)
    requires Inv(s) && Inv(s') && Above(s, s')
    ensures var r := Rewind(s', MarkOf(s));
      && r.current == s.current
      && r.cleanups == s.cleanups
      && SameBlocks(s.blocks, r.blocks)
      && SumUsed(r.blocks) == SumUsed(s.blocks)
      && r.fired == s'.fired + Callbacks(s'.cleanups[..|s'.cleanups| - |s.cleanups|])
      && r.registered == s'.registered && r.memory == s'.memory && r.minBlockSize == s.minBlockSize
    ensures forall e :: e in s.taken && e in s'.taken ==> e in Rewind(s', MarkOf(s)).taken
  {
    RewindIsRewound(s, s');
    RewoundBlocks(s.blocks, s.current, s'.blocks);
    SameBlocksSameSum(s.blocks, Rewound(s, s').blocks);
    StillTaken(s, s');
    RewoundCleanups(s, s');
  }

  lemma RewoundIsAbove(s: State, s': State)
    requires Inv(s) && Inv(s') && Above(s, s')
    ensures Above(s, Rewind(s', MarkOf(s))) && Inv(Rewind(s', MarkOf(s)))
  {
    RewindRestores(s, s');
    MarkIsGood(s);
    RewindKeepsInv(s', MarkOf(s));
    var r := Rewind(s', MarkOf(s));
    forall i | 0 <= i < |s.blocks| ensures r.blocks[i] == s.blocks[i] {
      assert r.blocks[i] == r.blocks[..|s.blocks|][i];
    }
  }

  lemma {:induction false} ExecIsAbove(s: State, p: Program)
    requires Inv(s) && Legal(s, p)
    ensures Above(s, Exec(s, p)) && Inv(Exec(s, p))
    decreases p
  {
    match p
    case Done =>
    case Do(request, rest) =>
      var next := Serve(s, request);
      ServeKeepsInv(s, request);
      ServeIsAbove(s, request);
      ExecIsAbove(next, rest);
      AboveIsTransitive(s, next, Exec(s, p));
    case Scope(inner, rest) =>
      ExecIsAbove(s, inner);
      RewoundIsAbove(s, Exec(s, inner));
      var next := Rewind(Exec(s, inner), MarkOf(s));
      ExecIsAbove(next, rest);
      AboveIsTransitive(s, next, Exec(s, p));
  }

  /** Mark, any well-nested run, rewind: the arena is where it was. */
  lemma ScopeRestores(s: State, p: Program)
    requires Inv(s) && Legal(s, p)
    ensures var s', r := Exec(s, p), Exec(s, Scope(p, Done));
      && r.current == s.current
      && r.cleanups == s.cleanups
      && SameBlocks(s.blocks, r.blocks)
      && SumUsed(r.blocks) == SumUsed(s.blocks)
      && (forall e :: e in s.taken && e in s'.taken ==> e in r.taken)
  {
    ExecIsAbove(s, p);
    ScopeAlone(s, p);
    RewindRestores(s, Exec(s, p));
  }

  // ---- which cleanups run, and when ----

  /** The callbacks that a run leaves waiting, newest first, read off the program: those of an
      inner scope are gone when it ends. */
  function Waiting(s: State, p: Program): seq<nat>
    requires s.Shaped()
    decreases p
  {
    match p
    case Done => []
    case Do(request, rest) => Waiting(Serve(s, request), rest) + Registers(s, request)
    case Scope(inner, rest) => Waiting(Rewind(Exec(s, inner), MarkOf(s)), rest)
  }

  function Registers(s: State, r: Request): seq<nat>
    requires s.Shaped()
  {
    if r.CleanupRequest? && OnDestroy(s, r.callback, r.mallocOk).1 then [r.callback] else []
  }

  /** The callbacks that a run has executed: at the end of each scope those it left waiting. */
  function Fires(s: State, p: Program): seq<nat>
    requires s.Shaped()
    decreases p
  {
    match p
    case Done => []
    case Do(request, rest) => Fires(Serve(s, request), rest)
    case Scope(inner, rest) =>
      Fires(s, inner) + Waiting(s, inner) + Fires(Rewind(Exec(s, inner), MarkOf(s)), rest)
  }

  lemma ServeRegisters(s: State, r: Request)
    requires s.Shaped()
    ensures Callbacks(Serve(s, r).cleanups) == Registers(s, r) + Callbacks(s.cleanups)
    ensures Serve(s, r).fired == s.fired
  {
    match r
    case AllocRequest(size, mallocOk) => AllocKeepsCleanupList(s, size, mallocOk);
    case ReallocRequest(ptr, oldSize, newSize, mallocOk) =>
      ReallocKeepsCleanupList(s, ptr, oldSize, newSize, mallocOk);
    case CleanupRequest(callback, mallocOk) =>
      AllocKeepsCleanupList(s, CLEANUP_NODE, mallocOk);
      var (s', node) := Alloc(s, CLEANUP_NODE, mallocOk);
      if node.Some? {
        var cleanup := Cleanup(node.value, callback);
        assert Callbacks([cleanup] + s.cleanups) == [callback] + Callbacks(s.cleanups);
      }
  }

  lemma CallbacksSplit(cleanups: seq<Cleanup>, older: seq<Cleanup>, waiting: seq<nat>)
    requires |older| <= |cleanups| && cleanups[|cleanups| - |older|..] == older
    requires Callbacks(cleanups) == waiting + Callbacks(older)
    ensures Callbacks(cleanups[..|cleanups| - |older|]) == waiting
  {
  }

  ghost predicate FollowsScopes(s: State, p: Program)
    requires s.Shaped()
  {
    && Callbacks(Exec(s, p).cleanups) == Waiting(s, p) + Callbacks(s.cleanups)
    && Exec(s, p).fired == s.fired + Fires(s, p)
  }

  lemma RequestFollowsScopes(s: State, request: Request, rest: Program)
    requires s.Shaped() && FollowsScopes(Serve(s, request), rest)
    ensures FollowsScopes(s, Do(request, rest))
  {
    ServeRegisters(s, request);
    Assoc(Waiting(Serve(s, request), rest), Registers(s, request), Callbacks(s.cleanups));
  }

  lemma RunningFires(s: State, n: nat, waiting: seq<nat>)
    requires n <= |s.cleanups| && Callbacks(s.cleanups[..n]) == waiting
    ensures RunCleanups(s, n).fired == s.fired + waiting && RunCleanups(s, n).cleanups == s.cleanups[n..]
  {
  }

  lemma RewindRuns(s: State, m: Mark)
    requires ValidMark(s, m)
    ensures var n := CountUntil(s.cleanups, m.cleanupHead);
      && Rewind(s, m).fired == RunCleanups(s, n).fired
      && Rewind(s, m).cleanups == RunCleanups(s, n).cleanups
  {
  }

  lemma RewindRunsWaiting(s: State, m: Mark, n: nat, waiting: seq<nat>)
    requires ValidMark(s, m) && CountUntil(s.cleanups, m.cleanupHead) == n && Callbacks(s.cleanups[..n]) == waiting
    ensures Rewind(s, m).fired == s.fired + waiting && Rewind(s, m).cleanups == s.cleanups[n..]
  {
    RewindRuns(s, m);
    RunningFires(s, n, waiting);
  }

  lemma MarkStaysValid(s: State, s': State)
    requires GoodBlocks(s.blocks, s.current) && Above(s, s')
    ensures ValidMark(s', MarkOf(s))
  {
  }

  lemma RewindFires(s: State, s': State, waiting: seq<nat>)
    requires Inv(s) && Inv(s') && Above(s, s') && Callbacks(s'.cleanups) == waiting + Callbacks(s.cleanups)
    ensures var r := Rewind(s', MarkOf(s));
      r.cleanups == s.cleanups && r.fired == s'.fired + waiting
  {
    CountsTheNewOnes(s, s');
    MarkStaysValid(s, s');
    CallbacksSplit(s'.cleanups, s.cleanups, waiting);
    RewindRunsWaiting(s', MarkOf(s), |s'.cleanups| - |s.cleanups|, waiting);
  }

  lemma ScopeUnfolds(s: State, inner: Program, rest: Program)
    requires s.Shaped()
    ensures var r := Rewind(Exec(s, inner), MarkOf(s));
      && Exec(s, Scope(inner, rest)) == Exec(r, rest)
      && Waiting(s, Scope(inner, rest)) == Waiting(r, rest)
      && Fires(s, Scope(inner, rest)) == Fires(s, inner) + Waiting(s, inner) + Fires(r, rest)
  {
  }

  lemma ScopeFollowsScopes(s: State, inner: Program, rest: Program)
    requires Inv(s) && Inv(Exec(s, inner)) && Above(s, Exec(s, inner)) && FollowsScopes(s, inner)
    requires FollowsScopes(Rewind(Exec(s, inner), MarkOf(s)), rest)
    ensures FollowsScopes(s, Scope(inner, rest))
  {
    var s' := Exec(s, inner);
    RewindFires(s, s', Waiting(s, inner));
    ScopeUnfolds(s, inner, rest);
    Assoc4(s.fired, Fires(s, inner), Waiting(s, inner), Fires(Rewind(s', MarkOf(s)), rest));
  }

  /** The stack of nodes implements the scopes: what waits and what ran is what the
      program's nesting says. */
  lemma {:induction false} CleanupsFollowTheScopes(s: State, p: Program)
    requires Inv(s) && Legal(s, p)
    ensures FollowsScopes(s, p)
    decreases p
  {
    match p
    case Done =>
    case Do(request, rest) =>
      ServeKeepsInv(s, request);
      CleanupsFollowTheScopes(Serve(s, request), rest);
      RequestFollowsScopes(s, request, rest);
    case Scope(inner, rest) =>
      ExecIsAbove(s, inner);
      RewoundIsAbove(s, Exec(s, inner));
      CleanupsFollowTheScopes(s, inner);
      CleanupsFollowTheScopes(Rewind(Exec(s, inner), MarkOf(s)), rest);
      ScopeFollowsScopes(s, inner, rest);
  }

  lemma WhatRanWasRegistered(s: State, r: State, ran: seq<nat>)
    requires Conserved(s) && Conserved(r) && r.cleanups == s.cleanups && r.fired == s.fired + ran
    ensures multiset(r.registered) == multiset(s.registered) + multiset(ran)
  {
  }

  lemma {:induction false} ExecConserves(s: State, p: Program)
    requires s.Shaped() && Conserved(s)
    ensures Conserved(Exec(s, p))
    decreases p
  {
    match p
    case Done =>
    case Do(request, rest) =>
      ServeConserves(s, request);
      ExecConserves(Serve(s, request), rest);
    case Scope(inner, rest) =>
      ExecConserves(s, inner);
      RewindConserves(Exec(s, inner), MarkOf(s));
      ExecConserves(Rewind(Exec(s, inner), MarkOf(s)), rest);
  }

  /** Once each: what runs during a scope and at its end is what was registered in it. */
  lemma EachCleanupRunsOnce(s: State, p: Program)
    requires Inv(s) && Conserved(s) && Legal(s, p)
    ensures var r, ran := Exec(s, Scope(p, Done)), Fires(s, p) + Waiting(s, p);
      r.fired == s.fired + ran && multiset(r.registered) == multiset(s.registered) + multiset(ran)
  {
    var s' := Exec(s, p);
    ExecIsAbove(s, p);
    ExecConserves(s, Scope(p, Done));
    CleanupsFollowTheScopes(s, p);
    RewindFires(s, s', Waiting(s, p));
    Assoc(s.fired, Fires(s, p), Waiting(s, p));
    ScopeAlone(s, p);
    WhatRanWasRegistered(s, Rewind(s', MarkOf(s)), Fires(s, p) + Waiting(s, p));
  }

  lemma ScopeAlone(s: State, p: Program)
    requires s.Shaped()
    ensures Exec(s, Scope(p, Done)) == Rewind(Exec(s, p), MarkOf(s))
  {
  }
}
