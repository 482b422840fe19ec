/** What must be built before a target: its explicit dependencies, seen through aliases and
    through targets that are not built themselves. */
module BuildOrder {
  import opened Ids
  import opened Records
  import opened Graphs
  import opened Aliases

  datatype OrderTarget = OrderTarget(kind: TargetKind, imported: bool, explicitDependencyIds: seq<Id>)

  datatype OrderModel = OrderModel(aliases: AliasTable, targets: seq<OrderTarget>)
  {
    ghost predicate Valid() {
      |aliases| == |targets| && TableFits(aliases)
    }

    predicate IsBuildOrderNode(u: nat)
      requires u < |targets| == |aliases|
    {
      && aliases[u].Concrete?
      && !targets[u].imported
      && !targets[u].kind.InterfaceLibrary?
      && !targets[u].kind.UnknownLibrary?
    }

    ghost function BuildOrderNodes(): set<nat>
      requires Valid()
    {
      set u: nat | u < |targets| && IsBuildOrderNode(u)
    }
  }

  function ResolveIds(aliases: AliasTable, ids: seq<Id>): (resolved: seq<Id>)
    ensures |resolved| == |ids| && forall k :: 0 <= k < |ids| ==> resolved[k] == ResolveAlias(aliases, ids[k])
  {
    seq<Id>(|ids|, k requires 0 <= k < |ids| => ResolveAlias(aliases, ids[k]))
  }

  /** The graph in which every path ends at the first target that is built. */
  function CutGraph(m: OrderModel): (g: Graph)
    requires |m.aliases| == |m.targets|
    ensures |g| == |m.targets|
  {
    seq<seq<nat>>(|m.targets|, u requires 0 <= u < |m.targets| =>
      if m.IsBuildOrderNode(u) then []
      else ValidIds(ResolveIds(m.aliases, m.targets[u].explicitDependencyIds)))
  }

  /** v is a target that is built, and id leads to it around the blocked targets. */
  ghost predicate LeadsTo(m: OrderModel, id: Id, v: nat, blocked: set<nat>)
    requires m.Valid()
  {
    var u := ResolveAlias(m.aliases, id);
    IsValid(u) && v in m.BuildOrderNodes() && ReachesAvoiding(CutGraph(m), u, v, blocked)
  }

  /** `to` extends `from` by exactly the targets that the ids lead to, without repeats. */
  ghost predicate Collected(m: OrderModel, ids: seq<Id>, blocked: set<nat>, from: seq<nat>, to: seq<nat>)
    requires m.Valid()
  {
    && from <= to
    && (NoRepeats(from) ==> NoRepeats(to))
    && (forall v: nat :: v in to <==> v in from || exists k :: 0 <= k < |ids| && LeadsTo(m, ids[k], v, blocked))
  }

  lemma CollectedNone(m: OrderModel, blocked: set<nat>, out: seq<nat>)
    requires m.Valid()
    ensures Collected(m, [], blocked, out, out)
  {
  }

  lemma CollectedNext(m: OrderModel, ids: seq<Id>, id: Id, blocked: set<nat>, a: seq<nat>, b: seq<nat>, c: seq<nat>)
    requires m.Valid()
    requires Collected(m, ids, blocked, a, b) && Collected(m, [id], blocked, b, c)
    ensures Collected(m, ids + [id], blocked, a, c)
  {
    var all := ids + [id];
    forall v: nat ensures v in c <==> v in a || exists k :: 0 <= k < |all| && LeadsTo(m, all[k], v, blocked) {
      if v in c {
        if v in b {
          if k :| 0 <= k < |ids| && LeadsTo(m, ids[k], v, blocked) {
            assert LeadsTo(m, all[k], v, blocked);
          }
        } else {
          var k :| 0 <= k < |[id]| && LeadsTo(m, [id][k], v, blocked);
          assert LeadsTo(m, all[|ids|], v, blocked);
        }
      }
      if k :| 0 <= k < |all| && LeadsTo(m, all[k], v, blocked) {
        if k < |ids| {
          assert LeadsTo(m, ids[k], v, blocked);
        } else {
          assert LeadsTo(m, [id][0], v, blocked);
        }
      }
    }
  }

  /** What an id leads to through a target that is not built. */
  lemma CollectedThrough(m: OrderModel, id: Id, blocked: set<nat>, from: seq<nat>, to: seq<nat>)
    requires m.Valid()
    requires var u := ResolveAlias(m.aliases, id);
      && u < |m.targets| && IsValid(u) && !m.IsBuildOrderNode(u) && (u as nat) !in blocked
      && Collected(m, m.targets[u].explicitDependencyIds, blocked + {u as nat}, from, to)
    ensures Collected(m, [id], blocked, from, to)
  {
    var u: nat := ResolveAlias(m.aliases, id);
    var ids := m.targets[u].explicitDependencyIds;
    var g := CutGraph(m);
    forall v: nat
      ensures LeadsTo(m, id, v, blocked) <==> exists k :: 0 <= k < |ids| && LeadsTo(m, ids[k], v, blocked + {u})
    {
      AvoidingUnfold(g, u, v, blocked);
      if k :| 0 <= k < |ids| && LeadsTo(m, ids[k], v, blocked + {u}) {
        InValidIds(ResolveIds(m.aliases, ids), ResolveAlias(m.aliases, ids[k]));
        assert ResolveIds(m.aliases, ids)[k] == ResolveAlias(m.aliases, ids[k]);
        assert Edge(g, u, ResolveAlias(m.aliases, ids[k]));
      }
      if LeadsTo(m, id, v, blocked) {
        var w :| Edge(g, u, w) && ReachesAvoiding(g, w, v, blocked + {u});
        InValidIds(ResolveIds(m.aliases, ids), w);
        var k :| 0 <= k < |ids| && ResolveIds(m.aliases, ids)[k] == w && w != INVALID;
        assert LeadsTo(m, ids[k], v, blocked + {u});
      }
    }
    forall v: nat ensures v in to <==> v in from || exists k :: 0 <= k < |[id]| && LeadsTo(m, [id][k], v, blocked) {
      if LeadsTo(m, id, v, blocked) {
        assert LeadsTo(m, [id][0], v, blocked);
      }
    }
  }

  lemma CollectedNothing(m: OrderModel, id: Id, blocked: set<nat>, out: seq<nat>)
    requires m.Valid()
    requires var u := ResolveAlias(m.aliases, id); !IsValid(u) || (u as nat) in blocked
    ensures Collected(m, [id], blocked, out, out)
  {
    var u := ResolveAlias(m.aliases, id);
    forall v: nat ensures !LeadsTo(m, id, v, blocked) {
      if IsValid(u) {
        HitsNothingFromBlocked(CutGraph(m), u, blocked, {v});
        assert v in {v};
      }
    }
  }

  lemma CollectedItself(m: OrderModel, id: Id, blocked: set<nat>, from: seq<nat>, to: seq<nat>)
    requires m.Valid()
    requires var u := ResolveAlias(m.aliases, id);
      && IsValid(u) && (u as nat) in m.BuildOrderNodes() && (u as nat) !in blocked
      && to == if (u as nat) in from then from else from + [u as nat]
    ensures Collected(m, [id], blocked, from, to)
  {
    var u: nat := ResolveAlias(m.aliases, id);
    forall v: nat ensures LeadsTo(m, id, v, blocked) <==> v == u {
      AvoidingUnfold(CutGraph(m), u, v, blocked);
      assert !exists w :: Edge(CutGraph(m), u, w);
    }
    assert LeadsTo(m, [id][0], u, blocked);
  }

  /** bm_query_collect_order_prerequisite_target: marks the targets of its current path only
      and unmarks them on the way out. */
  method CollectPrerequisite(m: OrderModel, root: Id, id: Id, visiting: array<bool>, out: seq<nat>)
    returns (out': seq<nat>)
    requires m.Valid() && visiting.Length == |m.targets| && root < |m.targets| && visiting[root]
    requires forall u :: 0 <= u < visiting.Length && visiting[u] && u != root ==> !m.IsBuildOrderNode(u)
    modifies visiting
    ensures visiting[..] == old(visiting[..])
    ensures Collected(m, [id], Marked(old(visiting[..])), out, out')
    decreases Unmarked(visiting[..])
  {
    ghost var blocked := Marked(visiting[..]);
    var u := ResolveAliasInQuery(m.aliases, id);
    ResolveAliasIsComplete(m.aliases, id, u);
    if !IsValid(u) || u == root {
      CollectedNothing(m, id, blocked, out);
      return out;
    }
    if m.IsBuildOrderNode(u) {
      out' := PushUnique(out, u);
      CollectedItself(m, id, blocked, out, out');
      return;
    }
    if visiting[u] {
      CollectedNothing(m, id, blocked, out);
      return out;
    }
    ghost var entry := visiting[..];
    visiting[u] := true;
    ghost var marked := visiting[..];
    assert Marked(marked) == blocked + {u as nat};
    assert Unmarked(marked) < Unmarked(entry) by {
      assert (u as nat) in Unmarked(entry) && (u as nat) !in Unmarked(marked);
    }
    var ids := m.targets[u].explicitDependencyIds;
    out' := out;
    for i := 0 to |ids|
      invariant visiting[..] == marked
      invariant Collected(m, ids[..i], Marked(marked), out, out')
    {
      ghost var before := out';
      out' := CollectPrerequisite(m, root, ids[i], visiting, out');
      CollectedNext(m, ids[..i], ids[i], Marked(marked), out, before, out');
      assert ids[..i] + [ids[i]] == ids[..i + 1];
    }
    assert ids[..|ids|] == ids;
    visiting[u] := false;
    assert visiting[..] == entry;
    CollectedThrough(m, id, blocked, out, out');
  }

  method PushUnique(items: seq<nat>, item: nat) returns (items': seq<nat>)
    ensures items' == if item in items then items else items + [item]
  {
    for i := 0 to |items|
      invariant item !in items[..i]
    {
      if items[i] == item {
        return items;
      }
    }
    return items + [item];
  }

  /** The prerequisites of the target `root` that are reached from the given ids (its explicit
      dependencies, or the targets of its link items): precisely the targets that are built and
      that some id leads to by way of targets that are not built and never through the root. */
  method CollectPrerequisites(m: OrderModel, root: Id, ids: seq<Id>) returns (out: seq<nat>)
    requires m.Valid() && root < |m.targets|
    ensures NoRepeats(out)
    ensures forall v: nat :: v in out <==> exists k :: 0 <= k < |ids| && LeadsTo(m, ids[k], v, {root as nat})
    ensures (root as nat) !in out
  {
    var visiting := new bool[|m.targets|](_ => false);
    visiting[root] := true;
    ghost var entry := visiting[..];
    assert Marked(entry) == {root as nat};
    out := [];
    CollectedNone(m, {root as nat}, out);
    for i := 0 to |ids|
      invariant visiting[..] == entry
      invariant Collected(m, ids[..i], {root as nat}, [], out)
    {
      ghost var before := out;
      out := CollectPrerequisite(m, root, ids[i], visiting, out);
      CollectedNext(m, ids[..i], ids[i], {root as nat}, [], before, out);
      assert ids[..i] + [ids[i]] == ids[..i + 1];
    }
    assert ids[..|ids|] == ids;
    NotReachedWhenBlocked(m, ids, root);
  }

  lemma NotReachedWhenBlocked(m: OrderModel, ids: seq<Id>, root: Id)
    requires m.Valid()
    ensures !exists k :: 0 <= k < |ids| && LeadsTo(m, ids[k], root, {root as nat})
  {
    forall k | 0 <= k < |ids| ensures !LeadsTo(m, ids[k], root, {root as nat}) {
      forall p | IsPathFromTo(CutGraph(m), p, ResolveAlias(m.aliases, ids[k]), root)
        ensures !Avoids(p, {root as nat})
      {
        assert p[|p| - 1] in {root as nat};
      }
    }
  }

  // ---- what the definitions come to ----

  /** Built are the local executables, static, shared, module and object libraries and
      utilities; aliases, imported targets, interface libraries and libraries of unknown kind
      are not. */
  lemma WhatIsBuilt(m: OrderModel, u: nat)
    requires m.Valid() && u < |m.targets|
    ensures u in m.BuildOrderNodes() <==>
            && m.aliases[u] == Concrete
            && m.targets[u].imported == false
            && m.targets[u].kind in {Executable, StaticLibrary, SharedLibrary, ModuleLibrary, ObjectLibrary, Utility}
  {
  }

  /** A target that is not built leads to the targets behind its explicit dependencies; one that
      is built leads nowhere. */
  lemma CutEdges(m: OrderModel, u: nat, v: nat)
    requires m.Valid() && u < |m.targets|
    ensures Edge(CutGraph(m), u, v) <==>
            && u !in m.BuildOrderNodes() && v != INVALID
            && exists k :: 0 <= k < |m.targets[u].explicitDependencyIds| &&
                 ResolveAlias(m.aliases, m.targets[u].explicitDependencyIds[k]) == v
  {
    var ids := m.targets[u].explicitDependencyIds;
    var resolved := ResolveIds(m.aliases, ids);
    InValidIds(resolved, v);
    if k :| 0 <= k < |ids| && ResolveAlias(m.aliases, ids[k]) == v {
      assert resolved[k] == v;
    }
  }

  /** The way from a dependency to a prerequisite: each target but the last is not built and
      depends on the next, the last is built, and none is blocked. */
  ghost predicate IsWay(m: OrderModel, p: seq<nat>, blocked: set<nat>)
    requires m.Valid()
  {
    && |p| > 0
    && (forall i :: 0 <= i < |p| ==> p[i] !in blocked)
    && (forall i :: 0 <= i < |p| - 1 ==> p[i] < |m.targets| && p[i] !in m.BuildOrderNodes() && DependsOn(m, p[i], p[i + 1]))
    && p[|p| - 1] in m.BuildOrderNodes()
  }

  ghost predicate DependsOn(m: OrderModel, u: nat, v: nat)
    requires m.Valid() && u < |m.targets|
  {
    && v != INVALID
    && exists k :: 0 <= k < |m.targets[u].explicitDependencyIds| &&
         ResolveAlias(m.aliases, m.targets[u].explicitDependencyIds[k]) == v
  }

  lemma LeadsToMeans(m: OrderModel, id: Id, v: nat, blocked: set<nat>)
    requires m.Valid()
    ensures LeadsTo(m, id, v, blocked) <==>
            && ResolveAlias(m.aliases, id) != INVALID
            && exists p: seq<nat> :: IsWay(m, p, blocked) && p[0] == ResolveAlias(m.aliases, id) && p[|p| - 1] == v
  {
    var u, g := ResolveAlias(m.aliases, id), CutGraph(m);
    if LeadsTo(m, id, v, blocked) {
      var p :| IsPathFromTo(g, p, u, v) && Avoids(p, blocked);
      forall i | 0 <= i < |p| - 1
        ensures p[i] < |m.targets| && p[i] !in m.BuildOrderNodes() && DependsOn(m, p[i], p[i + 1])
      {
        assert Edge(g, p[i], p[i + 1]);
        CutEdges(m, p[i], p[i + 1]);
      }
      assert IsWay(m, p, blocked);
    }
    if p: seq<nat> :| IsWay(m, p, blocked) && p[0] == u && p[|p| - 1] == v {
      forall i | 0 <= i < |p| - 1 ensures Edge(g, p[i], p[i + 1]) {
        assert DependsOn(m, p[i], p[i + 1]);
        CutEdges(m, p[i], p[i + 1]);
      }
      assert IsPathFromTo(g, p, u, v) && Avoids(p, blocked);
    }
  }
}
