/** The build-order view of a target: what must be done before it, sorted into seven spans. */
module BuildOrderViews {
  import opened Ids
  import opened Records
  import opened Graphs
  import opened Aliases
  import opened BuildOrder
  import opened CycleCheck

  datatype StepOwner = StepOwner(ownerTargetId: Id, kind: StepKind)

  /** Beside the targets: the owners of the build steps, the steps that produce the sources of
      each target, and the targets of the link items of each target as they evaluate, INVALID
      for items that name none; None where the evaluation fails. */
  datatype ViewModel = ViewModel(
    order: OrderModel,
    steps: seq<StepOwner>,
    producers: seq<seq<Id>>,
    linkTargets: seq<Option<seq<Id>>>)
  {
    ghost predicate Valid() {
      && order.Valid() && |steps| <= INVALID
      && |producers| == |linkTargets| == |order.targets|
      && forall u, i :: 0 <= u < |producers| && 0 <= i < |producers[u]| && IsValid(producers[u][i]) ==>
           producers[u][i] < |steps|
    }

    predicate IsUtility(u: nat)
      requires u < |order.targets|
    {
      order.targets[u].kind.Utility? && !order.targets[u].imported
    }

    predicate HasHooks(u: nat)
      requires u < |order.targets|
    {
      var kind := order.targets[u].kind;
      kind.Executable? || kind.StaticLibrary? || kind.SharedLibrary? || kind.ModuleLibrary?
    }

    predicate ConsumesLinks(u: nat)
      requires u < |order.targets|
    {
      var kind := order.targets[u].kind;
      kind.Executable? || kind.SharedLibrary? || kind.ModuleLibrary?
    }

    predicate IsBuilt(u: nat)
      requires u < |order.targets| == |order.aliases|
    {
      !IsUtility(u) && order.IsBuildOrderNode(u)
    }
  }

  // ---- what the spans list ----

  function TargetNodes(ids: seq<nat>): seq<OrderNode> {
    seq(|ids|, i requires 0 <= i < |ids| => TargetNode(ids[i]))
  }

  function StepNodes(ids: seq<nat>): seq<OrderNode> {
    seq(|ids|, i requires 0 <= i < |ids| => StepNode(ids[i]))
  }

  ghost predicate IsTargetId(nodes: seq<OrderNode>, v: nat) {
    TargetNode(v) in nodes
  }

  /** The nodes are, once each, the built targets that the ids lead to around the root. */
  ghost predicate ListsPrerequisites(m: OrderModel, root: nat, ids: seq<Id>, nodes: seq<OrderNode>)
    requires m.Valid()
  {
    && NoRepeats(nodes)
    && (forall k :: 0 <= k < |nodes| ==> nodes[k].TargetNode?)
    && forall v: nat :: IsTargetId(nodes, v) <==> exists k :: 0 <= k < |ids| && LeadsTo(m, ids[k], v, {root})
  }

  /** The nodes are, once each and in order, the steps of the kind that belong to the target. */
  ghost predicate ListsSteps(steps: seq<StepOwner>, owner: nat, kind: StepKind, nodes: seq<OrderNode>) {
    && (forall k :: 0 <= k < |nodes| ==> nodes[k].StepNode?)
    && (forall i, j :: 0 <= i < j < |nodes| ==> nodes[i].step < nodes[j].step)
    && forall node :: node in nodes <==>
         && node.StepNode? && node.step < |steps|
         && steps[node.step].ownerTargetId == owner && steps[node.step].kind == kind
  }

  /** The nodes are, once each, the valid ids among the producers. */
  ghost predicate ListsProducers(producers: seq<Id>, nodes: seq<OrderNode>) {
    && NoRepeats(nodes)
    && forall node :: node in nodes <==> node.StepNode? && node.step in ValidIds(producers)
  }

  /** What the view of an id is: None where the id leads to no target or its link items do not
      evaluate; otherwise the spans of the target behind the aliases. */
  ghost predicate IsView(m: ViewModel, id: Id, view: Option<TargetView>)
    requires m.Valid()
  {
    var u := ResolveAlias(m.order.aliases, id);
    if !IsValid(u) || u >= |m.order.targets| then view.None?
    else if m.IsBuilt(u) && m.ConsumesLinks(u) && m.linkTargets[u].None? then view.None?
    else view.Some? && IsViewOf(m, u, view.value)
  }

  ghost predicate IsViewOf(m: ViewModel, u: nat, v: TargetView)
    requires m.Valid() && u < |m.order.targets|
  {
    && ListsPrerequisites(m.order, u, m.order.targets[u].explicitDependencyIds, v.explicitPrerequisites)
    && (if m.IsUtility(u) then ListsSteps(m.steps, u, CustomTarget, v.customTargetSteps) else v.customTargetSteps == [])
    && (if m.IsBuilt(u) then ListsProducers(m.producers[u], v.generatedSourceSteps) else v.generatedSourceSteps == [])
    && (if m.IsBuilt(u) && m.ConsumesLinks(u)
        then m.linkTargets[u].Some? && ListsPrerequisites(m.order, u, m.linkTargets[u].value, v.linkPrerequisites)
        else v.linkPrerequisites == [])
    && (if m.IsBuilt(u) && m.HasHooks(u)
        then && ListsSteps(m.steps, u, PreBuild, v.preBuildSteps)
             && ListsSteps(m.steps, u, PreLink, v.preLinkSteps)
             && ListsSteps(m.steps, u, PostBuild, v.postBuildSteps)
        else v.preBuildSteps == v.preLinkSteps == v.postBuildSteps == [])
  }

  // ---- the collectors ----

  lemma NodesOfSteps(ids: seq<nat>)
    requires NoRepeats(ids)
    ensures NoRepeats(StepNodes(ids))
    ensures forall node :: node in StepNodes(ids) <==> node.StepNode? && node.step in ids
  {
    var nodes := StepNodes(ids);
    forall node ensures node in nodes <==> node.StepNode? && node.step in ids {
      if node.StepNode? && node.step in ids {
        var k :| 0 <= k < |ids| && ids[k] == node.step;
        assert nodes[k] == node;
      }
    }
  }

  lemma NodesOfTargets(ids: seq<nat>)
    requires NoRepeats(ids)
    ensures NoRepeats(TargetNodes(ids))
    ensures forall v: nat :: IsTargetId(TargetNodes(ids), v) <==> v in ids
  {
    var nodes := TargetNodes(ids);
    forall v: nat ensures IsTargetId(nodes, v) <==> v in ids {
      if v in ids {
        var k :| 0 <= k < |ids| && ids[k] == v;
        assert nodes[k] == TargetNode(v);
      }
    }
  }

  method CollectOrderSteps(steps: seq<StepOwner>, owner: Id, kind: StepKind) returns (nodes: seq<OrderNode>)
    ensures ListsSteps(steps, owner, kind, nodes)
  {
    var ids: seq<nat> := [];
    for i := 0 to |steps|
      invariant forall a, b :: 0 <= a < b < |ids| ==> ids[a] < ids[b]
      invariant forall k :: 0 <= k < |ids| ==> ids[k] in ids && ids[k] < i
      invariant forall v: nat :: v in ids <==> v < i && steps[v].ownerTargetId == owner && steps[v].kind == kind
    {
      if steps[i].ownerTargetId != owner || steps[i].kind != kind {
        continue;
      }
      ids := PushUnique(ids, i);
    }
    NodesOfSteps(ids);
    return StepNodes(ids);
  }

  method CollectGeneratedSourceSteps(producers: seq<Id>) returns (nodes: seq<OrderNode>)
    ensures ListsProducers(producers, nodes)
  {
    var ids: seq<nat> := [];
    for i := 0 to |producers|
      invariant NoRepeats(ids)
      invariant forall v: nat :: v in ids <==> v != INVALID && exists k :: 0 <= k < i && producers[k] == v
    {
      if !IsValid(producers[i]) {
        continue;
      }
      ids := PushUnique(ids, producers[i]);
    }
    forall v: nat ensures v in ids <==> v in ValidIds(producers) {
      InValidIds(producers, v);
    }
    NodesOfSteps(ids);
    return StepNodes(ids);
  }

  method CollectOrderPrerequisites(m: OrderModel, root: Id, ids: seq<Id>) returns (nodes: seq<OrderNode>)
    requires m.Valid() && root < |m.targets|
    ensures ListsPrerequisites(m, root, ids, nodes)
  {
    var targets := CollectPrerequisites(m, root, ids);
    NodesOfTargets(targets);
    return TargetNodes(targets);
  }

  /** bm_query_target_effective_build_order_view */
  method EffectiveBuildOrderView(m: ViewModel, id: Id) returns (view: Option<TargetView>)
    requires m.Valid()
    ensures IsView(m, id, view)
  {
    var u := ResolveAliasInQuery(m.order.aliases, id);
    ResolveAliasIsComplete(m.order.aliases, id, u);
    if !IsValid(u) || u >= |m.order.targets| {
      return None;
    }
    var v := TargetView([], [], [], [], [], [], []);
    var explicit := CollectOrderPrerequisites(m.order, u, m.order.targets[u].explicitDependencyIds);
    v := v.(explicitPrerequisites := explicit);
    if m.IsUtility(u) {
      var custom := CollectOrderSteps(m.steps, u, CustomTarget);
      v := v.(customTargetSteps := custom);
    } else if m.order.IsBuildOrderNode(u) {
      var generated := CollectGeneratedSourceSteps(m.producers[u]);
      v := v.(generatedSourceSteps := generated);
      if m.ConsumesLinks(u) {
        if m.linkTargets[u].None? {
          return None;
        }
        var links := CollectOrderPrerequisites(m.order, u, m.linkTargets[u].value);
        v := v.(linkPrerequisites := links);
      }
      if m.HasHooks(u) {
        var preBuild := CollectOrderSteps(m.steps, u, PreBuild);
        var preLink := CollectOrderSteps(m.steps, u, PreLink);
        var postBuild := CollectOrderSteps(m.steps, u, PostBuild);
        v := v.(preBuildSteps := preBuild, preLinkSteps := preLink, postBuildSteps := postBuild);
      }
    }
    return Some(v);
  }

  // ---- the execution graph of the views ----

  ghost predicate Names(m: ViewModel, node: OrderNode) {
    match node
    case TargetNode(id) => id < |m.order.targets|
    case StepNode(id) => id < |m.steps|
  }

  /** A view names targets and steps of the model only. */
  lemma ViewNamesTheModel(m: ViewModel, u: nat, v: TargetView, node: OrderNode)
    requires m.Valid() && u < |m.order.targets| && IsViewOf(m, u, v) && node in v.Nodes()
    ensures Names(m, node)
  {
    if node.TargetNode? {
      assert IsTargetId(v.explicitPrerequisites, node.target) || IsTargetId(v.linkPrerequisites, node.target);
    } else if node in v.generatedSourceSteps {
      InValidIds(m.producers[u], node.step);
    }
  }

  /** The views that the queries compute make a graph that the cycle check accepts. */
  lemma ViewsAreClosed(m: ViewModel, x: ExecModel)
    requires m.Valid() && |x.targets| == |m.order.targets| && |x.steps| == |m.steps|
    requires forall id: Id :: id < |x.targets| ==> IsView(m, id, x.targets[id])
    requires forall s, i :: 0 <= s < |x.steps| && x.steps[s].Some? && 0 <= i < |x.steps[s].value.Nodes()| ==>
               Names(m, x.steps[s].value.Nodes()[i])
    ensures x.Closed()
  {
    forall node, i | x.Has(node) && 0 <= i < |x.Prerequisites(node)| ensures x.Has(x.Prerequisites(node)[i]) {
      match node
      case StepNode(s) =>
        assert Names(m, x.steps[s].value.Nodes()[i]);
      case TargetNode(t) =>
        assert t < INVALID;
        assert IsView(m, t, x.targets[t]);
        ViewNamesTheModel(m, ResolveAlias(m.order.aliases, t), x.targets[t].value, x.Prerequisites(node)[i]);
    }
  }

  // ---- which spans a kind has ----

  /** The spans of a view, by the kind of the local target that the id leads to. */
  lemma SpansByKind(m: ViewModel, id: Id, view: TargetView)
    requires m.Valid() && IsView(m, id, Some(view))
    ensures var u := ResolveAlias(m.order.aliases, id);
      && u < |m.order.targets|
      && var t := m.order.targets[u];
         && ListsPrerequisites(m.order, u, t.explicitDependencyIds, view.explicitPrerequisites)
         && (!t.imported && t.kind in {Executable, SharedLibrary, ModuleLibrary} ==>
               && m.linkTargets[u].Some?
               && ListsPrerequisites(m.order, u, m.linkTargets[u].value, view.linkPrerequisites))
         && (t.imported || t.kind !in {Executable, SharedLibrary, ModuleLibrary} ==> view.linkPrerequisites == [])
         && (!t.imported && t.kind in {Executable, StaticLibrary, SharedLibrary, ModuleLibrary} ==>
               && ListsSteps(m.steps, u, PreBuild, view.preBuildSteps)
               && ListsSteps(m.steps, u, PreLink, view.preLinkSteps)
               && ListsSteps(m.steps, u, PostBuild, view.postBuildSteps))
         && (t.imported || t.kind !in {Executable, StaticLibrary, SharedLibrary, ModuleLibrary} ==>
               view.preBuildSteps == view.preLinkSteps == view.postBuildSteps == [])
         && (!t.imported && t.kind in {Executable, StaticLibrary, SharedLibrary, ModuleLibrary, ObjectLibrary} ==>
               ListsProducers(m.producers[u], view.generatedSourceSteps))
         && (t.imported || t.kind in {Utility, InterfaceLibrary, UnknownLibrary} ==> view.generatedSourceSteps == [])
         && (!t.imported && t.kind == Utility ==> ListsSteps(m.steps, u, CustomTarget, view.customTargetSteps))
         && (t.imported || t.kind != Utility ==> view.customTargetSteps == [])
  {
    var u := ResolveAlias(m.order.aliases, id);
    ResolveAliasIsComplete(m.order.aliases, id, u);
    WhatIsBuilt(m.order, u);
    var t := m.order.targets[u];
    var kinds := {Executable, StaticLibrary, SharedLibrary, ModuleLibrary, ObjectLibrary};
    assert m.IsBuilt(u) <==> (!t.imported && t.kind in kinds);
  }

  /** When there is no view. */
  lemma NoViewExactlyWhen(m: ViewModel, id: Id, view: Option<TargetView>)
    requires m.Valid() && IsView(m, id, view)
    ensures var u := ResolveAlias(m.order.aliases, id);
      view == None <==>
        || u == INVALID
        || (&& u < |m.order.targets|
            && m.order.targets[u].imported == false
            && m.order.targets[u].kind in {Executable, SharedLibrary, ModuleLibrary}
            && m.linkTargets[u] == None)
  {
    var u := ResolveAlias(m.order.aliases, id);
    ResolveAliasIsComplete(m.order.aliases, id, u);
    if IsValid(u) {
      WhatIsBuilt(m.order, u);
    }
  }

  /** The members of the lists, one by one. */
  lemma ListsInTurn(m: ViewModel, owner: nat, kind: StepKind, producers: seq<Id>, steps: seq<OrderNode>, made: seq<OrderNode>)
    requires ListsSteps(m.steps, owner, kind, steps) && ListsProducers(producers, made)
    ensures forall s: nat :: StepNode(s) in steps <==>
              s < |m.steps| && m.steps[s].ownerTargetId == owner && m.steps[s].kind == kind
    ensures forall s: nat :: StepNode(s) in made <==> s != INVALID && exists k :: 0 <= k < |producers| && producers[k] == s
    ensures forall t: nat :: TargetNode(t) !in steps && TargetNode(t) !in made
  {
    forall s: nat ensures StepNode(s) in made <==> s != INVALID && exists k :: 0 <= k < |producers| && producers[k] == s {
      InValidIds(producers, s);
    }
  }
}
