/** Transitive usage requirements: what a target inherits from everything it links to. */
module Usage {
  import opened Ids
  import opened Records
  import opened Sequences
  import opened Graphs
  import opened Chains

  // ---- depth-first preorder as a function ----

  /** The nodes met, in the order in which they are met, and all nodes visited so far. */
  datatype Walk = Walk(order: seq<nat>, visited: set<nat>)

  /** Works the list off from its front: a node not yet visited is met, and its successors are
      put in front of the rest. */
  ghost function Preorder(g: Graph, work: seq<nat>, visited: set<nat>): (walk: Walk)
    decreases Below(|g|) - visited, |work|
  {
    if work == [] then Walk([], visited)
    else
      var u, rest := work[0], work[1..];
      if u in visited || u >= |g| then Preorder(g, rest, visited)
      else
        assert u in Below(|g|) - visited && u !in Below(|g|) - (visited + {u});
        var walk := Preorder(g, g[u] + rest, visited + {u});
        Walk([u] + walk.order, walk.visited)
  }

  ghost predicate ReachedFrom(g: Graph, work: seq<nat>, visited: set<nat>, v: nat) {
    exists k :: 0 <= k < |work| && ReachesAvoiding(g, work[k], v, visited)
  }

  lemma ReachedFromMember(g: Graph, work: seq<nat>, visited: set<nat>, u: nat, v: nat)
    requires u in work && ReachesAvoiding(g, u, v, visited)
    ensures ReachedFrom(g, work, visited, v)
  {
    var k :| 0 <= k < |work| && work[k] == u;
  }

  /** One step of the preorder, seen from what can be reached. */
  lemma ReachedByStep(g: Graph, u: nat, rest: seq<nat>, visited: set<nat>, v: nat)
    requires u < |g| && u !in visited
    ensures ReachedFrom(g, [u] + rest, visited, v) <==> v == u || ReachedFrom(g, g[u] + rest, visited + {u}, v)
  {
    var work, next := [u] + rest, g[u] + rest;
    AvoidingSelf(g, u, visited);
    AvoidingUnfold(g, u, v, visited);
    if v == u {
      ReachedFromMember(g, work, visited, u, v);
    }
    if k :| 0 <= k < |next| && ReachesAvoiding(g, next[k], v, visited + {u}) {
      AvoidingLess(g, next[k], v, visited, visited + {u});
      if k < |g[u]| {
        assert Edge(g, u, next[k]);
        ReachedFromMember(g, work, visited, u, v);
      } else {
        assert next[k] == rest[k - |g[u]|] == work[1 + k - |g[u]|];
      }
    }
    if v != u && ReachedFrom(g, work, visited, v) {
      var k :| 0 <= k < |work| && ReachesAvoiding(g, work[k], v, visited);
      AvoidingOneMore(g, work[k], v, visited, u);
      if ReachesAvoiding(g, u, v, visited) {
        var w :| Edge(g, u, w) && ReachesAvoiding(g, w, v, visited + {u});
        ReachedFromMember(g, next, visited + {u}, w, v);
      } else {
        AvoidingSelf(g, u, visited);
        assert k > 0 && work[k] == next[|g[u]| + k - 1];
      }
    }
  }

  /** The preorder lists exactly the nodes that can be reached around the visited ones, once each. */
  lemma {:induction false} PreorderIsReachability(g: Graph, work: seq<nat>, visited: set<nat>)
    requires WellFormed(g) && forall k :: 0 <= k < |work| ==> work[k] < |g|
    ensures NoRepeats(Preorder(g, work, visited).order)
    ensures forall v: nat :: v in Preorder(g, work, visited).order <==> ReachedFrom(g, work, visited, v)
    decreases Below(|g|) - visited, |work|
  {
    if work != [] {
      var u, rest := work[0], work[1..];
      assert work == [u] + rest;
      if u in visited {
        PreorderIsReachability(g, rest, visited);
        forall v: nat ensures ReachedFrom(g, work, visited, v) <==> ReachedFrom(g, rest, visited, v) {
          HitsNothingFromBlocked(g, u, visited, {v});
          assert v in {v};
          if k :| 0 <= k < |work| && ReachesAvoiding(g, work[k], v, visited) {
            assert k > 0 && rest[k - 1] == work[k];
          }
          if k :| 0 <= k < |rest| && ReachesAvoiding(g, rest[k], v, visited) {
            assert work[k + 1] == rest[k];
          }
        }
      } else {
        assert u in Below(|g|) - visited && u !in Below(|g|) - (visited + {u});
        PreorderIsReachability(g, g[u] + rest, visited + {u});
        forall v: nat
          ensures ReachedFrom(g, work, visited, v) <==> v == u || ReachedFrom(g, g[u] + rest, visited + {u}, v)
        {
          ReachedByStep(g, u, rest, visited, v);
        }
        HitsNothingFromBlockedEnd(g, g[u] + rest, visited + {u}, u);
      }
    }
  }

  lemma HitsNothingFromBlockedEnd(g: Graph, work: seq<nat>, blocked: set<nat>, v: nat)
    requires v in blocked
    ensures !ReachedFrom(g, work, blocked, v)
  {
    forall k, p | 0 <= k < |work| && IsPathFromTo(g, p, work[k], v) ensures !Avoids(p, blocked) {
      assert p[|p| - 1] in blocked;
    }
  }

  /** The walk of a list is the walk of a first part followed by that of the rest: what a loop
      over the list computes. */
  ghost predicate Splits(g: Graph, a: seq<nat>, b: seq<nat>, visited: set<nat>) {
    var first := Preorder(g, a, visited);
    var second := Preorder(g, b, first.visited);
    Preorder(g, a + b, visited) == Walk(first.order + second.order, second.visited)
  }

  lemma {:induction false} PreorderSplits(g: Graph, a: seq<nat>, b: seq<nat>, visited: set<nat>)
    ensures Splits(g, a, b, visited)
    decreases Below(|g|) - visited, |a|
  {
    if a == [] {
      assert a + b == b;
    } else {
      var u, rest := a[0], a[1..];
      assert a == [u] + rest;
      if u in visited || u >= |g| {
        PreorderSplits(g, rest, b, visited);
        SkipSplits(g, u, rest, b, visited);
      } else {
        assert u in Below(|g|) - visited && u !in Below(|g|) - (visited + {u});
        PreorderSplits(g, g[u] + rest, b, visited + {u});
        VisitSplits(g, u, rest, b, visited);
      }
    }
  }

  lemma SkipSplits(g: Graph, u: nat, rest: seq<nat>, b: seq<nat>, visited: set<nat>)
    requires u in visited || u >= |g|
    requires Splits(g, rest, b, visited)
    ensures Splits(g, [u] + rest, b, visited)
  {
    assert [u] + rest + b == [u] + (rest + b);
    PreorderSkip(g, u, rest, visited);
    PreorderSkip(g, u, rest + b, visited);
  }

  lemma PreorderSkip(g: Graph, u: nat, rest: seq<nat>, visited: set<nat>)
    requires u in visited || u >= |g|
    ensures Preorder(g, [u] + rest, visited) == Preorder(g, rest, visited)
  {
    assert ([u] + rest)[0] == u && ([u] + rest)[1..] == rest;
  }

  lemma VisitSplits(g: Graph, u: nat, rest: seq<nat>, b: seq<nat>, visited: set<nat>)
    requires u < |g| && u !in visited && Splits(g, g[u] + rest, b, visited + {u})
    ensures Splits(g, [u] + rest, b, visited)
  {
    assert [u] + rest + b == [u] + (rest + b);
    assert g[u] + (rest + b) == g[u] + rest + b;
    PreorderVisit(g, u, rest, visited);
    PreorderVisit(g, u, rest + b, visited);
  }

  lemma PreorderVisit(g: Graph, u: nat, rest: seq<nat>, visited: set<nat>)
    requires u < |g| && u !in visited
    ensures var walk := Preorder(g, g[u] + rest, visited + {u});
            Preorder(g, [u] + rest, visited) == Walk([u] + walk.order, walk.visited)
  {
    assert ([u] + rest)[0] == u && ([u] + rest)[1..] == rest;
  }

  // ---- the model ----

  datatype Item<+T> = Item(visibility: Visibility, payload: T)

  /** The items of a target for one kind of query, and the target ids of its link items as they
      evaluate in the context of the query; None where the evaluation fails. */
  datatype UsageTarget<+T> = UsageTarget(items: seq<Item<T>>, links: Option<seq<Id>>)

  type UsageModel<+T> = seq<UsageTarget<T>>

  /** The valid ids of link items name targets of the model, as freezing leaves them; the
      queries do not rely on it. */
  ghost predicate AllKnown<T>(m: UsageModel<T>, ids: seq<Id>) {
    forall k :: 0 <= k < |ids| && IsValid(ids[k]) ==> ids[k] < |m|
  }

  /** The ids that name one of so many targets, as positions. */
  function KnownIds(size: nat, ids: seq<Id>): (positions: seq<nat>)
    ensures forall i :: 0 <= i < |positions| ==> positions[i] < size
  {
    if ids == [] then []
    else (if IsValid(ids[0]) && ids[0] < size then [ids[0] as nat] else []) + KnownIds(size, ids[1..])
  }

  lemma {:induction false} InKnownIds(size: nat, ids: seq<Id>, v: nat)
    ensures v in KnownIds(size, ids) <==> v < size && v != INVALID && exists k :: 0 <= k < |ids| && ids[k] == v
  {
    if ids != [] {
      InKnownIds(size, ids[1..], v);
      if k :| 0 <= k < |ids| && ids[k] == v {
        if k > 0 { assert ids[1..][k - 1] == v; }
      }
      if k :| 0 <= k < |ids[1..]| && ids[1..][k] == v {
        assert ids[k + 1] == v;
      }
    }
  }

  function LinkGraph<T>(m: UsageModel<T>): (g: Graph)
    ensures |g| == |m| && WellFormed(g)
  {
    seq<seq<nat>>(|m|, u requires 0 <= u < |m| => if m[u].links.None? then [] else KnownIds(|m|, m[u].links.value))
  }

  /** What a target hands on: its items that are not private. */
  function Inherited<T>(items: seq<Item<T>>): seq<Item<T>> {
    if items == [] then []
    else Inherited(items[..|items| - 1]) +
         (if items[|items| - 1].visibility.Private? then [] else [items[|items| - 1]])
  }

  /** The handed-on items of the targets of a list, in order. */
  ghost function Contributions<T>(m: UsageModel<T>, order: seq<nat>): seq<Item<T>> {
    if order == [] then []
    else (if order[0] < |m| then Inherited(m[order[0]].items) else []) + Contributions(m, order[1..])
  }

  lemma {:induction false} ContributionsAppend<T>(m: UsageModel<T>, a: seq<nat>, b: seq<nat>)
    ensures Contributions(m, a + b) == Contributions(m, a) + Contributions(m, b)
  {
    if a == [] {
      assert a + b == b;
    } else {
      var rest := a[1..];
      var head := if a[0] < |m| then Inherited(m[a[0]].items) else [];
      calc {
        Contributions(m, a + b);
        { assert (a + b)[0] == a[0] && (a + b)[1..] == rest + b; }
        head + Contributions(m, rest + b);
        { ContributionsAppend(m, rest, b); }
        head + (Contributions(m, rest) + Contributions(m, b));
        { Assoc(head, Contributions(m, rest), Contributions(m, b)); }
        Contributions(m, a) + Contributions(m, b);
      }
    }
  }

  /** Whether the links of every target of the list evaluate, to targets that exist. */
  ghost predicate AllEvaluate<T>(m: UsageModel<T>, order: seq<nat>) {
    forall v :: v in order ==> v !in Failing(m)
  }

  ghost function Failing<T>(m: UsageModel<T>): set<nat> {
    set u: nat | u < |m| && (m[u].links.None? || !AllKnown(m, m[u].links.value))
  }

  /** The id names no target, or leads to one that fails. */
  ghost predicate LeadsToFailing<T>(m: UsageModel<T>, id: Id, visited: set<nat>) {
    id >= |m| || Hits(LinkGraph(m), id, visited, Failing(m))
  }

  ghost predicate HitsFailing<T>(m: UsageModel<T>, ids: seq<Id>, visited: set<nat>) {
    exists k :: 0 <= k < |ids| && IsValid(ids[k]) && LeadsToFailing(m, ids[k], visited)
  }

  /** Private items stay with the target, public and interface items are handed on. */
  lemma OneInherited<T>(x: T)
    ensures Inherited([Item(Private, x)]) == []
    ensures Inherited([Item(Public, x)]) == [Item(Public, x)]
    ensures Inherited([Item(Interface, x)]) == [Item(Interface, x)]
  {
    assert forall item: Item<T> :: [item][..0] == [];
  }

  lemma {:induction false} InheritedAppend<T>(a: seq<Item<T>>, b: seq<Item<T>>)
    ensures Inherited(a + b) == Inherited(a) + Inherited(b)
    decreases |b|
  {
    if b == [] {
      assert a + b == a;
    } else {
      var init, last := b[..|b| - 1], b[|b| - 1];
      assert (a + b)[..|a + b| - 1] == a + init && (a + b)[|a + b| - 1] == last;
      InheritedAppend(a, init);
      Assoc(Inherited(a), Inherited(init), if last.visibility.Private? then [] else [last]);
    }
  }

  lemma {:induction false} InInherited<T>(items: seq<Item<T>>, item: Item<T>)
    ensures item in Inherited(items) <==> item in items && item.visibility != Private
  {
    if items != [] {
      var init, last := items[..|items| - 1], items[|items| - 1];
      assert items == init + [last];
      InInherited(init, item);
    }
  }

  lemma OneContribution<T>(m: UsageModel<T>, u: nat)
    requires u < |m|
    ensures Contributions(m, [u]) == Inherited(m[u].items)
  {
    assert [u][1..] == [];
  }

  lemma {:induction false} InContributions<T>(m: UsageModel<T>, order: seq<nat>, item: Item<T>)
    ensures item in Contributions(m, order) <==>
            exists v :: v in order && v < |m| && item in m[v].items && item.visibility != Private
  {
    if order != [] {
      InContributions(m, order[1..], item);
      assert order == [order[0]] + order[1..];
      if order[0] < |m| {
        InInherited(m[order[0]].items, item);
      }
    }
  }

  method CollectItems<T>(items: seq<Item<T>>, out: seq<Item<T>>) returns (out': seq<Item<T>>)
    ensures out' == out + Inherited(items)
  {
    out' := out;
    for i := 0 to |items|
      invariant out' == out + Inherited(items[..i])
    {
      assert items[..i + 1][..i] == items[..i];
      if !items[i].visibility.Private? {
        out' := out' + [items[i]];
      }
    }
    assert items[..|items|] == items;
  }

  lemma NothingNew<T>(m: UsageModel<T>, id: nat, marks: seq<bool>, out: seq<Item<T>>)
    requires id in Marked(marks) && |marks| == |m|
    ensures Visited(m, [id], marks, marks, out, out)
  {
    assert Preorder(LinkGraph(m), [id], Marked(marks)) == Walk([], Marked(marks));
  }

  /** The visit of one target: marks it, hands on its items and visits what it links to. */
  method CollectDependencyInterface<T>(m: UsageModel<T>, id: Id, visited: array<bool>, out: seq<Item<T>>)
    returns (ok: bool, out': seq<Item<T>>)
    requires visited.Length == |m|
    modifies visited
    ensures ok ==> id < |m| && Visited(m, [id as nat], old(visited[..]), visited[..], out, out')
    ensures !ok ==> LeadsToFailing(m, id, Marked(old(visited[..])))
    decreases Unmarked(visited[..]), 0
  {
    if id >= |m| {
      return false, out;
    }
    ghost var g, before := LinkGraph(m), visited[..];
    if visited[id] {
      NothingNew(m, id, before, out);
      return true, out;
    }
    visited[id] := true;
    ghost var marked := visited[..];
    assert Unmarked(marked) < Unmarked(before) by {
      assert (id as nat) in Unmarked(before) && (id as nat) !in Unmarked(marked);
    }
    assert Marked(marked) == Marked(before) + {id as nat};
    HitsUnfold(g, id, Marked(before), Failing(m));
    out' := CollectItems(m[id].items, out);
    if m[id].links.None? {
      return false, out';
    }
    ghost var handed := out';
    ok, out' := CollectDependencyUsage(m, m[id].links.value, visited, out');
    if ok {
      VisitedThrough(m, id, before, marked, visited[..], out, handed, out');
    } else {
      ghost var ids := m[id].links.value;
      ghost var k :| 0 <= k < |ids| && IsValid(ids[k]) && LeadsToFailing(m, ids[k], Marked(marked));
      InKnownIds(|m|, ids, ids[k]);
      assert ids[k] >= |m| ==> (id as nat) in Failing(m);
      assert ids[k] < |m| ==> Edge(g, id, ids[k]);
    }
  }

  lemma FailsEarlier<T>(m: UsageModel<T>, ids: seq<Id>, i: nat, visited: set<nat>, more: set<nat>)
    requires i < |ids| && IsValid(ids[i]) && visited <= more && LeadsToFailing(m, ids[i], more)
    ensures HitsFailing(m, ids, visited)
  {
    if ids[i] < |m| {
      HitsLess(LinkGraph(m), ids[i], visited, more, Failing(m));
    }
  }

  method CollectDependencyUsage<T>(m: UsageModel<T>, ids: seq<Id>, visited: array<bool>, out: seq<Item<T>>)
    returns (ok: bool, out': seq<Item<T>>)
    requires visited.Length == |m|
    modifies visited
    ensures ok ==> AllKnown(m, ids) && Visited(m, KnownIds(|m|, ids), old(visited[..]), visited[..], out, out')
    ensures !ok ==> HitsFailing(m, ids, Marked(old(visited[..])))
    decreases Unmarked(visited[..]), 1
  {
    ghost var entry := visited[..];
    out' := out;
    UsageNone(m, ids, entry, out);
    for i := 0 to |ids|
      invariant UsageSoFar(m, ids, i, entry, visited[..], out, out')
    {
      ghost var here, before := visited[..], out';
      if IsValid(ids[i]) {
        ok, out' := CollectDependencyInterface(m, ids[i], visited, out');
        if !ok {
          FailsEarlier(m, ids, i, Marked(entry), Marked(here));
          return;
        }
      }
      UsageNext(m, ids, i, entry, here, visited[..], out, before, out');
    }
    UsageAll(m, ids, entry, visited[..], out, out');
    return true, out';
  }

  ghost predicate KnownUpTo<T>(m: UsageModel<T>, ids: seq<Id>, i: nat)
    requires i <= |ids|
  {
    forall k :: 0 <= k < i && IsValid(ids[k]) ==> ids[k] < |m|
  }

  ghost predicate UsageSoFar<T>(m: UsageModel<T>, ids: seq<Id>, i: nat, entry: seq<bool>, now: seq<bool>,
                                out: seq<Item<T>>, out': seq<Item<T>>)
    requires i <= |ids|
  {
    && KnownUpTo(m, ids, i)
    && Visited(m, KnownIds(|m|, ids[..i]), entry, now, out, out')
    && Marked(entry) <= Marked(now)
    && Unmarked(now) <= Unmarked(entry)
  }

  lemma UsageNext<T>(m: UsageModel<T>, ids: seq<Id>, i: nat, entry: seq<bool>, here: seq<bool>, now: seq<bool>,
                     out: seq<Item<T>>, before: seq<Item<T>>, out': seq<Item<T>>)
    requires i < |ids|
    requires UsageSoFar(m, ids, i, entry, here, out, before)
    requires if IsValid(ids[i]) then ids[i] < |m| && Visited(m, [ids[i] as nat], here, now, before, out')
             else here == now && before == out'
    ensures UsageSoFar(m, ids, i + 1, entry, now, out, out')
  {
    KnownPrefix(|m|, ids, i);
    if IsValid(ids[i]) {
      VisitedNext(m, KnownIds(|m|, ids[..i]), ids[i], entry, here, now, out, before, out');
      MarkedGrows(here, now);
    }
  }

  lemma KnownPrefix(size: nat, ids: seq<Id>, i: nat)
    requires i < |ids| && (IsValid(ids[i]) ==> ids[i] < size)
    ensures KnownIds(size, ids[..i + 1]) ==
            if IsValid(ids[i]) then KnownIds(size, ids[..i]) + [ids[i] as nat] else KnownIds(size, ids[..i])
  {
    KnownIdsStep(size, ids[..i], ids[i]);
    assert ids[..i] + [ids[i]] == ids[..i + 1];
  }

  lemma UsageAll<T>(m: UsageModel<T>, ids: seq<Id>, entry: seq<bool>, now: seq<bool>,
                    out: seq<Item<T>>, out': seq<Item<T>>)
    requires UsageSoFar(m, ids, |ids|, entry, now, out, out')
    ensures AllKnown(m, ids) && Visited(m, KnownIds(|m|, ids), entry, now, out, out')
  {
    assert ids[..|ids|] == ids;
  }

  lemma UsageNone<T>(m: UsageModel<T>, ids: seq<Id>, entry: seq<bool>, out: seq<Item<T>>)
    requires |entry| == |m|
    ensures UsageSoFar(m, ids, 0, entry, entry, out, out)
  {
  }

  lemma MarkedGrows(from: seq<bool>, to: seq<bool>)
    requires |from| == |to| && Marked(from) <= Marked(to)
    ensures Unmarked(to) <= Unmarked(from)
  {
    forall u: nat | u < |to| && !to[u] ensures !from[u] {
      assert u !in Marked(to);
    }
  }

  lemma {:induction false} KnownIdsStep(size: nat, ids: seq<Id>, id: Id)
    requires IsValid(id) ==> id < size
    ensures KnownIds(size, ids + [id]) == if IsValid(id) then KnownIds(size, ids) + [id as nat] else KnownIds(size, ids)
  {
    if ids != [] {
      var rest := ids[1..];
      var head := if IsValid(ids[0]) && ids[0] < size then [ids[0] as nat] else [];
      calc {
        KnownIds(size, ids + [id]);
        { assert (ids + [id])[0] == ids[0] && (ids + [id])[1..] == rest + [id]; }
        head + KnownIds(size, rest + [id]);
        { KnownIdsStep(size, rest, id); }
        head + (if IsValid(id) then KnownIds(size, rest) + [id as nat] else KnownIds(size, rest));
        if IsValid(id) then KnownIds(size, ids) + [id as nat] else KnownIds(size, ids);
      }
    }
  }

  /** The effect of a walk: exactly its nodes are newly marked, and exactly their handed-on items
      are appended, in its order. */
  ghost predicate Follows<T>(m: UsageModel<T>, walk: Walk, to: seq<bool>, out: seq<Item<T>>, out': seq<Item<T>>) {
    && |to| == |m|
    && AllEvaluate(m, walk.order)
    && Marked(to) == walk.visited
    && out' == out + Contributions(m, walk.order)
  }

  ghost predicate Visited<T>(m: UsageModel<T>, work: seq<nat>, from: seq<bool>, to: seq<bool>,
                             out: seq<Item<T>>, out': seq<Item<T>>)
  {
    Follows(m, Preorder(LinkGraph(m), work, Marked(from)), to, out, out')
  }

  lemma FollowsAppend<T>(m: UsageModel<T>, first: Walk, second: Walk, b: seq<bool>, c: seq<bool>,
                         out: seq<Item<T>>, mid: seq<Item<T>>, out': seq<Item<T>>)
    requires Follows(m, first, b, out, mid) && Follows(m, second, c, mid, out')
    ensures Follows(m, Walk(first.order + second.order, second.visited), c, out, out')
  {
    calc {
      out';
      out + Contributions(m, first.order) + Contributions(m, second.order);
      out + (Contributions(m, first.order) + Contributions(m, second.order));
      { ContributionsAppend(m, first.order, second.order); }
      out + Contributions(m, first.order + second.order);
    }
  }

  lemma VisitedThrough<T>(m: UsageModel<T>, id: nat, before: seq<bool>, marked: seq<bool>, after: seq<bool>,
                          out: seq<Item<T>>, handed: seq<Item<T>>, out': seq<Item<T>>)
    requires id < |m| == |marked| && id !in Marked(before) && Marked(marked) == Marked(before) + {id}
    requires m[id].links.Some? && AllKnown(m, m[id].links.value)
    requires handed == out + Inherited(m[id].items)
    requires Visited(m, LinkGraph(m)[id], marked, after, handed, out')
    ensures Visited(m, [id], before, after, out, out')
  {
    var g := LinkGraph(m);
    var walk := Preorder(g, g[id], Marked(marked));
    assert Preorder(g, [id], Marked(before)) == Walk([id] + walk.order, walk.visited) by {
      assert g[id] + [] == g[id] && [id] + [] == [id];
      PreorderVisit(g, id, [], Marked(before));
    }
    assert Follows(m, Walk([id], Marked(marked)), marked, out, handed) by {
      assert Contributions(m, [id]) == Inherited(m[id].items);
    }
    FollowsAppend(m, Walk([id], Marked(marked)), walk, marked, after, out, handed, out');
  }

  lemma VisitedNext<T>(m: UsageModel<T>, work: seq<nat>, id: nat, a: seq<bool>, b: seq<bool>, c: seq<bool>,
                       out: seq<Item<T>>, mid: seq<Item<T>>, out': seq<Item<T>>)
    requires Visited(m, work, a, b, out, mid) && Visited(m, [id], b, c, mid, out')
    ensures Visited(m, work + [id], a, c, out, out')
    ensures Marked(b) <= Marked(c)
  {
    var g := LinkGraph(m);
    PreorderSplits(g, work, [id], Marked(a));
    PreorderKeepsVisited(g, [id], Marked(b));
    FollowsAppend(m, Preorder(g, work, Marked(a)), Preorder(g, [id], Marked(b)), b, c, out, mid, out');
  }

  lemma {:induction false} PreorderKeepsVisited(g: Graph, work: seq<nat>, visited: set<nat>)
    ensures visited <= Preorder(g, work, visited).visited
    decreases Below(|g|) - visited, |work|
  {
    if work != [] {
      var u, rest := work[0], work[1..];
      if u in visited || u >= |g| {
        PreorderKeepsVisited(g, rest, visited);
      } else {
        assert u in Below(|g|) - visited && u !in Below(|g|) - (visited + {u});
        PreorderKeepsVisited(g, g[u] + rest, visited + {u});
      }
    }
  }

  // ---- duplicates ----

  /** The entries whose key no earlier entry has. */
  ghost function FirstByKey<T>(items: seq<T>, key: T -> string): seq<T> {
    if items == [] then []
    else
      var init, last := items[..|items| - 1], items[|items| - 1];
      FirstByKey(init, key) +
      (if HasKey(init, key, key(last)) then [] else [last])
  }

  ghost predicate HasKey<T>(items: seq<T>, key: T -> string, k: string) {
    exists i :: 0 <= i < |items| && key(items[i]) == k
  }

  /** The keys of what is kept are the keys there were, each once. */
  lemma {:induction false} FirstByKeyKeepsKeys<T>(items: seq<T>, key: T -> string)
    ensures var kept := FirstByKey(items, key);
      && (forall i, j :: 0 <= i < j < |kept| ==> key(kept[i]) != key(kept[j]))
      && (forall k :: HasKey(kept, key, k) <==> HasKey(items, key, k))
  {
    if items != [] {
      var init, last := items[..|items| - 1], items[|items| - 1];
      assert items == init + [last];
      FirstByKeyKeepsKeys(init, key);
      var before := FirstByKey(init, key);
      forall k ensures HasKey(items, key, k) <==> HasKey(init, key, k) || key(last) == k {
        HasKeyAppend(init, last, key, k);
      }
      forall k ensures HasKey(before + [last], key, k) <==> HasKey(before, key, k) || key(last) == k {
        HasKeyAppend(before, last, key, k);
      }
      var kept := FirstByKey(items, key);
      assert kept == if HasKey(init, key, key(last)) then before else before + [last];
      assert kept == before || kept == before + [last];
      if kept == before {
        assert HasKey(before, key, key(last));
      }
    }
  }

  /** The places of the kept items: further on from one to the next, and exactly those whose
      key no earlier item has. */
  ghost predicate FirstPlaces<T>(items: seq<T>, key: T -> string, kept: seq<T>, places: seq<nat>) {
    && |places| == |kept|
    && (forall k :: 0 <= k < |places| ==> places[k] < |items| && items[places[k]] == kept[k])
    && (forall j, k :: 0 <= j < k < |places| ==> places[j] < places[k])
    && (forall i: nat :: i < |items| ==> (i in places <==> IsFirst(items, key, i)))
  }

  ghost predicate IsFirst<T>(items: seq<T>, key: T -> string, i: nat)
    requires i < |items|
  {
    forall k :: 0 <= k < i ==> key(items[k]) != key(items[i])
  }

  lemma FirstPlacesAppend<T>(init: seq<T>, last: T, key: T -> string, kept: seq<T>, places: seq<nat>)
    requires FirstPlaces(init, key, kept, places)
    ensures var items := init + [last];
      if IsFirst(items, key, |init|) then FirstPlaces(items, key, kept + [last], places + [|init|])
      else FirstPlaces(items, key, kept, places)
  {
    var items := init + [last];
    assert forall k :: 0 <= k < |init| ==> items[k] == init[k];
    forall i: nat | i < |init| ensures IsFirst(items, key, i) <==> IsFirst(init, key, i) {
      if IsFirst(items, key, i) {
        forall k | 0 <= k < i ensures key(init[k]) != key(init[i]) {
          assert key(items[k]) != key(items[i]);
        }
      }
    }
    assert |init| !in places;
  }

  /** An item is kept if and only if no earlier item has its key, and what is kept keeps its
      order. */
  lemma {:induction false} KeptItemsAreFirst<T>(items: seq<T>, key: T -> string) returns (places: seq<nat>)
    ensures FirstPlaces(items, key, FirstByKey(items, key), places)
  {
    places := [];
    if items != [] {
      var init, last := items[..|items| - 1], items[|items| - 1];
      assert items == init + [last];
      places := KeptItemsAreFirst(init, key);
      FirstPlacesAppend(init, last, key, FirstByKey(init, key), places);
      if IsFirst(items, key, |init|) {
        places := places + [|init|];
      }
    }
  }

  lemma HasKeyAppend<T>(items: seq<T>, last: T, key: T -> string, k: string)
    ensures HasKey(items + [last], key, k) <==> HasKey(items, key, k) || key(last) == k
  {
    var all := items + [last];
    if i :| 0 <= i < |items| && key(items[i]) == k {
      assert key(all[i]) == k;
    }
    assert all[|items|] == last;
  }

  method Dedup<T>(items: seq<T>, key: T -> string) returns (out: seq<T>)
    ensures out == FirstByKey(items, key)
  {
    var seen: seq<string> := [];
    out := [];
    for i := 0 to |items|
      invariant out == FirstByKey(items[..i], key)
      invariant forall k :: k in seen <==> HasKey(items[..i], key, k)
    {
      var k := key(items[i]);
      var duplicate := false;
      for j := 0 to |seen|
        invariant !duplicate && k !in seen[..j]
      {
        if seen[j] == k {
          duplicate := true;
          break;
        }
      }
      assert items[..i + 1][..i] == items[..i];
      assert items[..i + 1] == items[..i] + [items[i]];
      forall k ensures HasKey(items[..i + 1], key, k) <==> HasKey(items[..i], key, k) || key(items[i]) == k {
        HasKeyAppend(items[..i], items[i], key, k);
      }
      assert duplicate <==> k in seen;
      if !duplicate {
        seen := seen + [k];
        out := out + [items[i]];
      }
    }
    assert items[..|items|] == items;
  }

  // ---- the query ----

  /** The effective items of a target: its own scope's items, then what it inherits, evaluated
      and freed of duplicates. */
  method TargetEffectiveItems<T>(m: UsageModel<T>, root: Id, local: seq<Item<T>>, seeds: Option<seq<Id>>,
                                 eval: seq<Item<T>> -> Option<seq<Item<T>>>, key: Item<T> -> string)
    returns (result: Option<seq<Item<T>>>)
    ensures result.Some? ==>
      && root < |m| && seeds.Some? && AllKnown(m, seeds.value)
      && InheritedFrom(m, root, seeds.value, InheritanceOrder(m, root, seeds.value))
      && AllEvaluate(m, InheritanceOrder(m, root, seeds.value))
      && var raw := local + Contributions(m, InheritanceOrder(m, root, seeds.value));
         && eval(raw).Some? && result.value == FirstByKey(eval(raw).value, key)
         && forall item :: item in raw <==>
              || item in local
              || (item.visibility != Private
                  && exists v: nat :: v < |m| && SeedReaches(m, root, seeds.value, v) && item in m[v].items)
    ensures result.None? && root < |m| && seeds.Some? ==>
      || HitsFailing(m, seeds.value, {root as nat})
      || eval(local + Contributions(m, InheritanceOrder(m, root, seeds.value))).None?
  {
    if root >= |m| || seeds.None? {
      return None;
    }
    var visited := new bool[|m|](_ => false);
    visited[root] := true;
    assert Marked(visited[..]) == {root as nat};
    InheritanceIsReachability(m, root, seeds.value);
    var ok, raw := CollectDependencyUsage(m, seeds.value, visited, local);
    if !ok {
      return None;
    }
    var evaluated := eval(raw);
    if evaluated.None? {
      return None;
    }
    forall item {
      InRawItems(m, root, local, seeds.value, item);
    }
    var items := Dedup(evaluated.value, key);
    return Some(items);
  }

  /** What is evaluated: the local items, and the items that are not private of exactly the
      targets reachable from the seeds by paths that avoid the root. */
  lemma InRawItems<T>(m: UsageModel<T>, root: Id, local: seq<Item<T>>, seeds: seq<Id>, item: Item<T>)
    ensures item in local + Contributions(m, InheritanceOrder(m, root, seeds)) <==>
            || item in local
            || (item.visibility != Private
                && exists v: nat :: v < |m| && SeedReaches(m, root, seeds, v) && item in m[v].items)
  {
    InheritanceIsReachability(m, root, seeds);
    InContributions(m, InheritanceOrder(m, root, seeds), item);
  }

  ghost function InheritanceOrder<T>(m: UsageModel<T>, root: Id, seeds: seq<Id>): seq<nat> {
    Preorder(LinkGraph(m), KnownIds(|m|, seeds), {root as nat}).order
  }

  /** The list holds, once each, exactly the targets reachable from the seeds along link items by
      paths that avoid the root. */
  ghost predicate InheritedFrom<T>(m: UsageModel<T>, root: Id, seeds: seq<Id>, order: seq<nat>) {
    && NoRepeats(order)
    && forall v: nat :: v in order <==>
         SeedReaches(m, root, seeds, v)
  }

  ghost predicate SeedReaches<T>(m: UsageModel<T>, root: Id, seeds: seq<Id>, v: nat) {
    exists k :: 0 <= k < |seeds| && IsValid(seeds[k]) && seeds[k] < |m| &&
      ReachesAvoiding(LinkGraph(m), seeds[k], v, {root as nat})
  }

  lemma InheritanceIsReachability<T>(m: UsageModel<T>, root: Id, seeds: seq<Id>)
    ensures InheritedFrom(m, root, seeds, InheritanceOrder(m, root, seeds))
  {
    var g, work := LinkGraph(m), KnownIds(|m|, seeds);
    PreorderIsReachability(g, work, {root as nat});
    forall v: nat ensures ReachedFrom(g, work, {root as nat}, v) <==> SeedReaches(m, root, seeds, v) {
      if i :| 0 <= i < |work| && ReachesAvoiding(g, work[i], v, {root as nat}) {
        assert work[i] in work;
        InKnownIds(|m|, seeds, work[i]);
      }
      if k :| 0 <= k < |seeds| && IsValid(seeds[k]) && seeds[k] < |m| && ReachesAvoiding(g, seeds[k], v, {root as nat}) {
        InKnownIds(|m|, seeds, seeds[k]);
        ReachedFromMember(g, work, {root as nat}, seeds[k], v);
      }
    }
  }

  // ---- what the definitions come to ----

  /** First the node, then all that its successors lead to, in their order, and only then the
      rest of the list. */
  lemma DepthFirst(g: Graph, u: nat, rest: seq<nat>, visited: set<nat>)
    requires u < |g| && u !in visited
    ensures var below := Preorder(g, g[u], visited + {u});
      var others := Preorder(g, rest, below.visited);
      Preorder(g, [u] + rest, visited) == Walk([u] + below.order + others.order, others.visited)
  {
    PreorderVisit(g, u, rest, visited);
    PreorderSplits(g, g[u], rest, visited + {u});
  }

  /** The ids of targets, in the order of the link items and as often. */
  lemma {:induction false} KnownIdsAppend(size: nat, a: seq<Id>, b: seq<Id>)
    ensures KnownIds(size, a + b) == KnownIds(size, a) + KnownIds(size, b)
  {
    if a == [] {
      assert a + b == b;
    } else {
      var head := if IsValid(a[0]) && a[0] < size then [a[0] as nat] else [];
      assert (a + b)[0] == a[0] && (a + b)[1..] == a[1..] + b;
      KnownIdsAppend(size, a[1..], b);
      Assoc(head, KnownIds(size, a[1..]), KnownIds(size, b));
    }
  }

  lemma OneKnownId(size: nat, id: Id)
    ensures KnownIds(size, [id]) == if id != INVALID && id < size then [id as nat] else []
  {
    assert [id][1..] == [];
  }

  /** A target leads to the targets of its evaluated link items, and fails where they do not
      evaluate or one of them names no target of the model. */
  lemma UsageEdges<T>(m: UsageModel<T>, u: nat, v: nat)
    requires u < |m|
    ensures Edge(LinkGraph(m), u, v) <==>
            && m[u].links.Some? && v < |m| && v != INVALID
            && exists k :: 0 <= k < |m[u].links.value| && m[u].links.value[k] == v
    ensures u in Failing(m) <==>
            || m[u].links.None?
            || exists k :: 0 <= k < |m[u].links.value| && m[u].links.value[k] != INVALID && m[u].links.value[k] >= |m|
  {
    if m[u].links.Some? {
      InKnownIds(|m|, m[u].links.value, v);
    }
  }
}
