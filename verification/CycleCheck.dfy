/** The three-colour depth-first searches that look for dependency cycles: over the
    targets and build steps of a frozen model, and over the explicit, name-resolved
    dependencies of a draft. */
module CycleCheck {
  import opened Ids
  import opened Graphs

  datatype Color = White | Gray | Black

  function Whites(colors: seq<Color>): set<nat> {
    set u: nat | u < |colors| && colors[u].White?
  }

  /** What both searches keep: the black nodes are listed in finishing order, an error is
      raised only over a cycle, and while none is raised the order goes along the edges. */
  ghost predicate Sound(g: Graph, colors: seq<Color>, finished: seq<nat>, hadError: bool, before: bool) {
    && |colors| == |g|
    && NoRepeats(finished)
    && (forall u: nat :: u in finished <==> u < |g| && colors[u].Black?)
    && (before ==> hadError)
    && (hadError && !before ==> HasCycle(g))
    && (!hadError ==> FinishOrdered(g, finished))
  }

  /** From one visit to the next, black stays black and exactly the same nodes are gray. */
  ghost predicate Advanced(from: seq<Color>, to: seq<Color>) {
    && |from| == |to|
    && (forall u :: 0 <= u < |to| && from[u].Black? ==> to[u].Black?)
    && (forall u :: 0 <= u < |to| ==> (to[u].Gray? <==> from[u].Gray?))
  }

  ghost predicate GraysReach(g: Graph, colors: seq<Color>, u: nat) {
    forall w :: 0 <= w < |colors| && colors[w].Gray? ==> Reaches(g, w, u)
  }

  lemma AdvancedIsTransitive(a: seq<Color>, b: seq<Color>, c: seq<Color>)
    requires Advanced(a, b) && Advanced(b, c)
    ensures Advanced(a, c) && Whites(c) <= Whites(a)
  {
  }

  /** A visit begins: its node turns gray. */
  lemma Starting(g: Graph, colors: seq<Color>, finished: seq<nat>, hadError: bool, before: bool, u: nat)
    requires Sound(g, colors, finished, hadError, before)
    requires u < |g| && colors[u].White? && GraysReach(g, colors, u)
    ensures Sound(g, colors[u := Gray], finished, hadError, before)
    ensures GraysReach(g, colors[u := Gray], u)
    ensures Whites(colors[u := Gray]) < Whites(colors)
  {
    ReachesSelf(g, u);
    assert u in Whites(colors) && u !in Whites(colors[u := Gray]);
  }

  /** A visit ends: its node turns black, after everything it depends on. */
  lemma Finishing(g: Graph, entry: seq<Color>, colors: seq<Color>, finished: seq<nat>,
                  hadError: bool, before: bool, u: nat)
    requires u < |entry| && entry[u].White? && Advanced(entry[u := Gray], colors)
    requires Sound(g, colors, finished, hadError, before)
    requires !hadError ==> forall v: nat :: Edge(g, u, v) ==> v in finished
    ensures Sound(g, colors[u := Black], finished + [u], hadError, before)
    ensures Advanced(entry, colors[u := Black])
  {
    assert entry[u := Gray][u].Gray?;
    assert u !in finished;
    if !hadError {
      FinishingKeepsOrder(g, finished, u);
    }
    forall w | 0 <= w < |entry|
      ensures entry[w].Black? ==> colors[u := Black][w].Black?
      ensures colors[u := Black][w].Gray? <==> entry[w].Gray?
    {
      assert w != u ==> entry[u := Gray][w] == entry[w] && colors[u := Black][w] == colors[w];
    }
  }

  lemma GraysReachAlongEdge(g: Graph, colors: seq<Color>, u: nat, v: nat)
    requires GraysReach(g, colors, u) && Edge(g, u, v)
    ensures GraysReach(g, colors, v)
  {
    forall w | 0 <= w < |colors| && colors[w].Gray? ensures Reaches(g, w, v) {
      ReachesEdge(g, w, u, v);
    }
  }

  lemma FinishingKeepsOrder(g: Graph, finished: seq<nat>, u: nat)
    requires FinishOrdered(g, finished)
    requires forall v :: Edge(g, u, v) ==> v in finished
    ensures FinishOrdered(g, finished + [u])
  {
    var order := finished + [u];
    forall k, v | 0 <= k < |order| && Edge(g, order[k], v) ensures v in order[..k] {
      if k < |finished| {
        assert order[..k] == finished[..k];
      } else {
        assert order[..k] == finished;
      }
    }
  }

  /** Once no node is white or gray, the error flag is the answer. */
  lemma FinishedSearchIsExact(g: Graph, colors: seq<Color>, finished: seq<nat>, hadError: bool, before: bool)
    requires Sound(g, colors, finished, hadError, before)
    requires forall u :: 0 <= u < |g| ==> colors[u].Black?
    ensures hadError <==> before || HasCycle(g)
    ensures !hadError ==> IsBuildOrder(g, finished)
  {
    if !hadError {
      BuildOrderHasNoCycle(g, finished);
    }
  }

  // ---- the execution graph of a frozen model ----

  datatype OrderNode = TargetNode(target: nat) | StepNode(step: nat)

  datatype TargetView = TargetView(
    explicitPrerequisites: seq<OrderNode>,
    preBuildSteps: seq<OrderNode>,
    generatedSourceSteps: seq<OrderNode>,
    linkPrerequisites: seq<OrderNode>,
    preLinkSteps: seq<OrderNode>,
    postBuildSteps: seq<OrderNode>,
    customTargetSteps: seq<OrderNode>)
  {
    function Nodes(): seq<OrderNode> {
      explicitPrerequisites + preBuildSteps + generatedSourceSteps + linkPrerequisites +
      preLinkSteps + postBuildSteps + customTargetSteps
    }

    lemma SpansAmongNodes()
      ensures Among(explicitPrerequisites, Nodes()) && Among(preBuildSteps, Nodes())
      ensures Among(generatedSourceSteps, Nodes()) && Among(linkPrerequisites, Nodes())
      ensures Among(preLinkSteps, Nodes()) && Among(postBuildSteps, Nodes())
      ensures Among(customTargetSteps, Nodes())
    {
    }
  }

  ghost predicate Among(span: seq<OrderNode>, nodes: seq<OrderNode>) {
    forall node :: node in span ==> node in nodes
  }

  datatype StepView = StepView(targetDependencies: seq<nat>, producerDependencies: seq<nat>)
  {
    function Nodes(): seq<OrderNode> {
      seq(|targetDependencies|, i requires 0 <= i < |targetDependencies| => TargetNode(targetDependencies[i])) +
      seq(|producerDependencies|, i requires 0 <= i < |producerDependencies| => StepNode(producerDependencies[i]))
    }
  }

  /** The views that the queries give for every target and every step in one context;
      None where the query fails. */
  datatype ExecModel = ExecModel(targets: seq<Option<TargetView>>, steps: seq<Option<StepView>>)
  {
    predicate Has(node: OrderNode) {
      match node
      case TargetNode(id) => id < |targets|
      case StepNode(id) => id < |steps|
    }

    function NodeCount(): nat {
      |targets| + |steps|
    }

    function Index(node: OrderNode): (i: nat)
      ensures Has(node) ==> i < NodeCount()
    {
      match node
      case TargetNode(id) => id
      case StepNode(id) => |targets| + id
    }

    function NodeAt(i: nat): (node: OrderNode)
      requires i < NodeCount()
      ensures Has(node) && Index(node) == i
    {
      if i < |targets| then TargetNode(i) else StepNode(i - |targets|)
    }

    predicate HasView(node: OrderNode)
      requires Has(node)
    {
      match node
      case TargetNode(id) => targets[id].Some?
      case StepNode(id) => steps[id].Some?
    }

    function Prerequisites(node: OrderNode): seq<OrderNode>
      requires Has(node)
    {
      if !HasView(node) then []
      else match node
        case TargetNode(id) => targets[id].value.Nodes()
        case StepNode(id) => steps[id].value.Nodes()
    }

    ghost predicate Viewed(indices: seq<nat>) {
      forall u :: u in indices ==> u < NodeCount() && HasView(NodeAt(u))
    }

    lemma ViewedNext(indices: seq<nat>, node: OrderNode)
      requires Viewed(indices) && Has(node) && HasView(node)
      ensures Viewed(indices + [Index(node)])
    {
      assert NodeAt(Index(node)) == node;
    }

    predicate AllViews() {
      (forall i :: 0 <= i < |targets| ==> targets[i].Some?) && (forall i :: 0 <= i < |steps| ==> steps[i].Some?)
    }

    /** Views name targets and steps of the model only. */
    ghost predicate Closed() {
      forall node, i :: Has(node) && 0 <= i < |Prerequisites(node)| ==> Has(Prerequisites(node)[i])
    }
  }

  /** Targets come first, then steps; an edge leads from a node to what must be done before it. */
  function ExecGraph(m: ExecModel): (g: Graph)
    ensures |g| == m.NodeCount()
  {
    seq<seq<nat>>(m.NodeCount(), i requires 0 <= i < m.NodeCount() =>
      Indices(m, m.Prerequisites(m.NodeAt(i))))
  }

  function Indices(m: ExecModel, nodes: seq<OrderNode>): (indices: seq<nat>)
    ensures |indices| == |nodes| && forall k :: 0 <= k < |indices| ==> indices[k] == m.Index(nodes[k])
  {
    seq<nat>(|nodes|, k requires 0 <= k < |nodes| => m.Index(nodes[k]))
  }

  lemma ExecEdge(m: ExecModel, from: OrderNode, v: nat)
    requires m.Has(from)
    ensures Edge(ExecGraph(m), m.Index(from), v) <==>
            exists k :: 0 <= k < |m.Prerequisites(from)| && m.Index(m.Prerequisites(from)[k]) == v
  {
    var u := m.Index(from);
    assert m.NodeAt(u) == from;
    var nodes := m.Prerequisites(from);
    assert ExecGraph(m)[u] == Indices(m, nodes);
    if k :| 0 <= k < |nodes| && m.Index(nodes[k]) == v {
      assert ExecGraph(m)[u][k] == v;
    }
  }

  /** The node stands in one of the seven spans. */
  ghost predicate InSomeSpan(view: TargetView, node: OrderNode) {
    || node in view.explicitPrerequisites || node in view.preBuildSteps
    || node in view.generatedSourceSteps || node in view.linkPrerequisites
    || node in view.preLinkSteps || node in view.postBuildSteps || node in view.customTargetSteps
  }

  /** Before a target come the targets and steps of its seven spans, and nothing else. */
  lemma TargetEdges(m: ExecModel, t: nat, v: nat)
    requires t < |m.targets| && m.targets[t].Some?
    ensures Edge(ExecGraph(m), t, v) <==>
            || InSomeSpan(m.targets[t].value, TargetNode(v))
            || (v >= |m.targets| && InSomeSpan(m.targets[t].value, StepNode(v - |m.targets|)))
  {
    var view, nodes := m.targets[t].value, m.Prerequisites(TargetNode(t));
    ExecEdge(m, TargetNode(t), v);
    assert forall node :: node in nodes <==> InSomeSpan(view, node);
    if TargetNode(v) in nodes {
      var k :| 0 <= k < |nodes| && nodes[k] == TargetNode(v);
      assert m.Index(nodes[k]) == v;
    }
    if v >= |m.targets| && StepNode(v - |m.targets|) in nodes {
      var k :| 0 <= k < |nodes| && nodes[k] == StepNode(v - |m.targets|);
      assert m.Index(nodes[k]) == v;
    }
    if k :| 0 <= k < |nodes| && m.Index(nodes[k]) == v {
      assert nodes[k] in nodes;
    }
  }

  /** Before a step come the targets it depends on and the steps that produce its inputs, and
      nothing else. */
  lemma StepEdges(m: ExecModel, s: nat, v: nat)
    requires s < |m.steps| && m.steps[s].Some?
    ensures Edge(ExecGraph(m), |m.targets| + s, v) <==>
            || v in m.steps[s].value.targetDependencies
            || (v >= |m.targets| && v - |m.targets| in m.steps[s].value.producerDependencies)
  {
    var view, nodes := m.steps[s].value, m.Prerequisites(StepNode(s));
    var n := |view.targetDependencies|;
    ExecEdge(m, StepNode(s), v);
    assert |nodes| == n + |view.producerDependencies|;
    assert forall k :: 0 <= k < n ==> nodes[k] == TargetNode(view.targetDependencies[k]);
    assert forall k :: n <= k < |nodes| ==> nodes[k] == StepNode(view.producerDependencies[k - n]);
    if v in view.targetDependencies {
      var k :| 0 <= k < n && view.targetDependencies[k] == v;
      assert m.Index(nodes[k]) == v;
    }
    if v >= |m.targets| && v - |m.targets| in view.producerDependencies {
      var k :| 0 <= k < |view.producerDependencies| && view.producerDependencies[k] == v - |m.targets|;
      assert m.Index(nodes[n + k]) == v;
    }
    if k :| 0 <= k < |nodes| && m.Index(nodes[k]) == v {
      assert k >= n ==> view.producerDependencies[k - n] in view.producerDependencies;
    }
  }

  /** Two steps that each need what the other produces, or one that needs its own product. */
  lemma MutualProducersAreACycle(m: ExecModel, s: nat, t: nat)
    requires s < |m.steps| && t < |m.steps| && m.steps[s].Some? && m.steps[t].Some?
    requires t in m.steps[s].value.producerDependencies && s in m.steps[t].value.producerDependencies
    ensures HasCycle(ExecGraph(m))
  {
    var g, a, b := ExecGraph(m), |m.targets| + s, |m.targets| + t;
    StepEdges(m, s, b);
    StepEdges(m, t, a);
    assert IsCycle(g, [a, b, a]);
  }

  /** A target whose hook or custom step depends on the target itself. */
  lemma StepOfItsOwnTargetIsACycle(m: ExecModel, t: nat, s: nat)
    requires t < |m.targets| && s < |m.steps| && m.targets[t].Some? && m.steps[s].Some?
    requires InSomeSpan(m.targets[t].value, StepNode(s)) && t in m.steps[s].value.targetDependencies
    ensures HasCycle(ExecGraph(m))
  {
    var g, b := ExecGraph(m), |m.targets| + s;
    TargetEdges(m, t, b);
    StepEdges(m, s, t);
    assert IsCycle(g, [t, b, t]);
  }

  class ExecutionCycleCheck {
    const model: ExecModel
    const colors: array<Color>
    var hadError: bool
    ghost const before: bool
    ghost var finished: seq<nat>

    ghost predicate Valid()
      reads this, colors
    {
      && model.Closed()
      && Sound(ExecGraph(model), colors[..], finished, hadError, before)
      && model.Viewed(finished)
    }

    constructor (model: ExecModel, hadError: bool)
      requires model.Closed()
      ensures Valid() && fresh(colors) && this.model == model
      ensures before == hadError && this.hadError == hadError
      ensures forall i :: 0 <= i < colors.Length ==> colors[i].White?
    {
      this.model := model;
      this.colors := new Color[model.NodeCount()](_ => White);
      this.hadError := hadError;
      this.before := hadError;
      this.finished := [];
    }

    ghost predicate AllBlack(nodes: seq<OrderNode>)
      reads colors
    {
      && colors.Length == model.NodeCount()
      && forall i :: 0 <= i < |nodes| ==> model.Has(nodes[i]) && colors[model.Index(nodes[i])].Black?
    }

    /** Inside the visit of `from`, which began with the colours `entry`: the nodes `done`
        have been dealt with. */
    ghost predicate Within(from: OrderNode, entry: seq<Color>, done: seq<OrderNode>)
      reads this, colors
    {
      && Valid() && model.Has(from) && colors[model.Index(from)].Gray?
      && GraysReach(ExecGraph(model), colors[..], model.Index(from))
      && Advanced(entry, colors[..]) && Whites(colors[..]) <= Whites(entry)
      && (!hadError ==> AllBlack(done))
    }

    /** Returns false only where some view could not be computed. */
    method VisitNode(node: OrderNode) returns (ok: bool)
      requires Valid() && model.Has(node) && colors[model.Index(node)].White?
      requires GraysReach(ExecGraph(model), colors[..], model.Index(node))
      modifies this, colors
      ensures Valid() && (old(hadError) ==> hadError)
      ensures ok ==> Advanced(old(colors[..]), colors[..]) && colors[model.Index(node)].Black?
      ensures !ok ==> !model.AllViews()
      decreases Whites(colors[..]), 0
    {
      ghost var g := ExecGraph(model);
      var index := model.Index(node);
      ghost var entry := colors[..];
      Starting(g, entry, finished, hadError, before, index);
      colors[index] := Gray;
      ghost var marked := colors[..];
      assert marked == entry[index := Gray];
      ok := VisitPrerequisites(node, marked);
      if !ok {
        return false;
      }
      if !hadError {
        AllPrerequisitesFinished(node);
      }
      model.ViewedNext(finished, node);
      ghost var visited := colors[..];
      Finishing(g, entry, visited, finished, hadError, before, index);
      colors[index] := Black;
      assert colors[..] == visited[index := Black];
      finished := finished + [index];
    }

    lemma AllPrerequisitesFinished(node: OrderNode)
      requires Valid() && model.Has(node) && AllBlack(model.Prerequisites(node))
      ensures forall v: nat :: Edge(ExecGraph(model), model.Index(node), v) ==> v in finished
    {
      forall v: nat | Edge(ExecGraph(model), model.Index(node), v) ensures v in finished {
        ExecEdge(model, node, v);
      }
    }

    method VisitPrerequisites(node: OrderNode, ghost entry: seq<Color>) returns (ok: bool)
      requires Within(node, entry, [])
      modifies this, colors
      ensures Valid() && (old(hadError) ==> hadError)
      ensures ok ==> Within(node, entry, model.Prerequisites(node)) && model.HasView(node)
      ensures !ok ==> !model.AllViews()
      decreases Whites(entry), 4
    {
      match node
      case TargetNode(id) =>
        ok := VisitTarget(id, entry);
      case StepNode(id) =>
        ok := VisitStep(id, entry);
    }

    method VisitTarget(id: nat, ghost entry: seq<Color>) returns (ok: bool)
      requires Within(TargetNode(id), entry, [])
      modifies this, colors
      ensures Valid() && (old(hadError) ==> hadError)
      ensures ok ==> Within(TargetNode(id), entry, model.Prerequisites(TargetNode(id)))
      ensures ok ==> model.targets[id].Some?
      ensures !ok ==> !model.AllViews()
      decreases Whites(entry), 3
    {
      if model.targets[id].None? {
        return false;
      }
      var view := model.targets[id].value;
      var from := TargetNode(id);
      view.SpansAmongNodes();
      ok := VisitOrderSpan(from, view.explicitPrerequisites, entry, []);
      if !ok { return; }
      ghost var done := [] + view.explicitPrerequisites;
      ok := VisitOrderSpan(from, view.preBuildSteps, entry, done);
      if !ok { return; }
      done := done + view.preBuildSteps;
      ok := VisitOrderSpan(from, view.generatedSourceSteps, entry, done);
      if !ok { return; }
      done := done + view.generatedSourceSteps;
      ok := VisitOrderSpan(from, view.linkPrerequisites, entry, done);
      if !ok { return; }
      done := done + view.linkPrerequisites;
      ok := VisitOrderSpan(from, view.preLinkSteps, entry, done);
      if !ok { return; }
      done := done + view.preLinkSteps;
      ok := VisitOrderSpan(from, view.postBuildSteps, entry, done);
      if !ok { return; }
      done := done + view.postBuildSteps;
      ok := VisitOrderSpan(from, view.customTargetSteps, entry, done);
      assert done + view.customTargetSteps == view.Nodes();
    }

    method VisitStep(id: nat, ghost entry: seq<Color>) returns (ok: bool)
      requires Within(StepNode(id), entry, [])
      modifies this, colors
      ensures Valid() && (old(hadError) ==> hadError)
      ensures ok ==> Within(StepNode(id), entry, model.Prerequisites(StepNode(id)))
      ensures ok ==> model.steps[id].Some?
      ensures !ok ==> !model.AllViews()
      decreases Whites(entry), 3
    {
      if model.steps[id].None? {
        return false;
      }
      var view := model.steps[id].value;
      var from := StepNode(id);
      var nodes := view.Nodes();
      var split := |view.targetDependencies|;
      assert Among(nodes[..split], nodes) && Among(nodes[split..], nodes);
      ok := VisitOrderSpan(from, nodes[..split], entry, []);
      if !ok { return; }
      ok := VisitOrderSpan(from, nodes[split..], entry, [] + nodes[..split]);
      assert [] + nodes[..split] + nodes[split..] == nodes;
    }

    lemma OneMoreDone(from: OrderNode, entry: seq<Color>, here: seq<Color>, done: seq<OrderNode>, to: OrderNode)
      requires Valid() && model.Has(from) && Advanced(here, colors[..]) && Advanced(entry, here)
      requires here[model.Index(from)].Gray? && GraysReach(ExecGraph(model), here, model.Index(from))
      requires !hadError ==> AllBlack([to])
      requires !hadError ==> forall i :: 0 <= i < |done| ==> model.Has(done[i]) && here[model.Index(done[i])].Black?
      ensures Within(from, entry, done + [to])
    {
      AdvancedIsTransitive(entry, here, colors[..]);
      if !hadError {
        var all := done + [to];
        forall i | 0 <= i < |all| ensures model.Has(all[i]) && colors[model.Index(all[i])].Black? {
          assert i == |done| ==> all[i] == [to][0];
        }
      }
    }

    method VisitOrderSpan(from: OrderNode, span: seq<OrderNode>, ghost entry: seq<Color>, ghost done: seq<OrderNode>)
      returns (ok: bool)
      requires Within(from, entry, done)
      requires Among(span, model.Prerequisites(from))
      modifies this, colors
      ensures Valid() && (old(hadError) ==> hadError)
      ensures ok ==> Within(from, entry, done + span)
      ensures !ok ==> !model.AllViews()
      decreases Whites(entry), 2
    {
      for i := 0 to |span|
        invariant Within(from, entry, done + span[..i])
        invariant old(hadError) ==> hadError
      {
        ghost var here := colors[..];
        ok := VisitEdge(from, span[i]);
        if !ok {
          return;
        }
        OneMoreDone(from, entry, here, done + span[..i], span[i]);
        assert done + span[..i + 1] == done + span[..i] + [span[i]];
      }
      assert span[..|span|] == span;
      return true;
    }

    method VisitEdge(from: OrderNode, to: OrderNode) returns (ok: bool)
      requires Valid() && model.Has(from) && colors[model.Index(from)].Gray?
      requires GraysReach(ExecGraph(model), colors[..], model.Index(from))
      requires to in model.Prerequisites(from)
      modifies this, colors
      ensures Valid() && (old(hadError) ==> hadError)
      ensures ok ==> Advanced(old(colors[..]), colors[..])
      ensures ok && !hadError ==> model.Has(to) && colors[model.Index(to)].Black?
      ensures !ok ==> !model.AllViews()
      decreases Whites(colors[..]), 1
    {
      ghost var g := ExecGraph(model);
      var toIndex := model.Index(to);
      assert model.Has(to);
      ExecEdge(model, from, toIndex);
      if colors[toIndex].Gray? {
        BackEdgeClosesCycle(g, model.Index(from), toIndex);
        hadError := true;
        return true;
      }
      if colors[toIndex].Black? {
        return true;
      }
      GraysReachAlongEdge(g, colors[..], model.Index(from), toIndex);
      ok := VisitNode(to);
    }
  }

  /** The check is exact: when every view can be computed it succeeds, and then it raises an
      error if and only if the execution graph has a cycle; without an error the finishing
      order is an order in which everything can be built. */
  method ValidateExecutionCyclesForContext(m: ExecModel, hadError: bool)
    returns (ok: bool, hadError': bool, ghost order: seq<nat>)
    requires m.Closed()
    ensures ok <==> m.AllViews()
    ensures ok ==> (hadError' <==> hadError || HasCycle(ExecGraph(m)))
    ensures !ok ==> (hadError' ==> hadError || HasCycle(ExecGraph(m)))
    ensures ok && !hadError' ==> IsBuildOrder(ExecGraph(m), order)
  {
    ghost var g := ExecGraph(m);
    var check := new ExecutionCycleCheck(m, hadError);
    for i := 0 to m.NodeCount()
      invariant check.Valid()
      invariant forall u :: 0 <= u < i ==> check.colors[u].Black?
      invariant forall u :: i <= u < m.NodeCount() ==> !check.colors[u].Gray?
    {
      if check.colors[i].White? {
        ok := check.VisitNode(m.NodeAt(i));
        if !ok {
          return false, check.hadError, check.finished;
        }
      }
    }
    FinishedSearchIsExact(g, check.colors[..], check.finished, check.hadError, hadError);
    forall i | 0 <= i < |m.targets| ensures m.targets[i].Some? {
      assert i in check.finished && m.NodeAt(i) == TargetNode(i);
    }
    forall i | 0 <= i < |m.steps| ensures m.steps[i].Some? {
      assert |m.targets| + i in check.finished && m.NodeAt(|m.targets| + i) == StepNode(i);
    }
    return true, check.hadError, check.finished;
  }

  /** One branch per known configuration and one for the empty configuration, all over the
      same entities. */
  method ValidateExecutionCycles(branches: seq<ExecModel>, hadError: bool) returns (ok: bool, hadError': bool)
    requires forall i :: 0 <= i < |branches| ==> branches[i].Closed()
    ensures ok <==> forall i :: 0 <= i < |branches| ==> branches[i].AllViews()
    ensures ok ==> (hadError' <==>
              hadError || exists i :: 0 <= i < |branches| && HasCycle(ExecGraph(branches[i])))
  {
    hadError' := hadError;
    for i := 0 to |branches|
      invariant forall k :: 0 <= k < i ==> branches[k].AllViews()
      invariant hadError' <==> hadError || exists k :: 0 <= k < i && HasCycle(ExecGraph(branches[k]))
    {
      ghost var order;
      ok, hadError', order := ValidateExecutionCyclesForContext(branches[i], hadError');
      if !ok {
        return;
      }
    }
    return true, hadError';
  }

  // ---- the explicit dependencies of a draft ----

  /** For each target the names it depends on, and the draft's name index. */
  datatype DependencyDraft = DependencyDraft(dependencyNames: seq<seq<string>>, index: seq<NameIndexEntry>)
  {
    ghost predicate IndexInRange() {
      forall i :: 0 <= i < |index| ==> index[i].id < |dependencyNames| && IsValid(index[i].id)
    }
  }

  function FindAll(names: seq<string>, index: seq<NameIndexEntry>): (ids: seq<Id>)
    ensures |ids| == |names| && forall k :: 0 <= k < |ids| ==> ids[k] == FindTargetId(index, names[k])
  {
    seq<Id>(|names|, k requires 0 <= k < |names| => FindTargetId(index, names[k]))
  }

  /** Names that resolve to nothing give no edge. */
  function ExplicitGraph(d: DependencyDraft): (g: Graph)
    ensures |g| == |d.dependencyNames|
  {
    seq<seq<nat>>(|d.dependencyNames|, i requires 0 <= i < |d.dependencyNames| =>
      ValidIds(FindAll(d.dependencyNames[i], d.index)))
  }

  /** A target depends on the targets its dependency names find, and on nothing else. */
  lemma ExplicitEdges(d: DependencyDraft, u: nat, v: nat)
    requires u < |d.dependencyNames|
    ensures Edge(ExplicitGraph(d), u, v) <==>
            v != INVALID && exists k :: 0 <= k < |d.dependencyNames[u]| && FindTargetId(d.index, d.dependencyNames[u][k]) == v
  {
    var found := FindAll(d.dependencyNames[u], d.index);
    InValidIds(found, v);
    if k :| 0 <= k < |d.dependencyNames[u]| && FindTargetId(d.index, d.dependencyNames[u][k]) == v {
      assert found[k] == v;
    }
  }

  class ExplicitCycleCheck {
    const draft: DependencyDraft
    const colors: array<Color>
    var hadError: bool
    ghost const before: bool
    ghost var finished: seq<nat>

    ghost predicate Valid()
      reads this, colors
    {
      && draft.IndexInRange()
      && Sound(ExplicitGraph(draft), colors[..], finished, hadError, before)
    }

    constructor (draft: DependencyDraft, hadError: bool)
      requires draft.IndexInRange()
      ensures Valid() && fresh(colors) && this.draft == draft
      ensures before == hadError && this.hadError == hadError
      ensures forall i :: 0 <= i < colors.Length ==> colors[i].White?
    {
      this.draft := draft;
      this.colors := new Color[|draft.dependencyNames|](_ => White);
      this.hadError := hadError;
      this.before := hadError;
      this.finished := [];
    }

    /** Inside the visit of id, which began with the colours `entry`: its first `dep`
        dependencies have been dealt with. */
    ghost predicate Within(id: nat, entry: seq<Color>, dep: nat)
      reads this, colors
    {
      && Valid() && id < colors.Length && colors[id].Gray? && dep <= |draft.dependencyNames[id]|
      && GraysReach(ExplicitGraph(draft), colors[..], id)
      && Advanced(entry, colors[..]) && Whites(colors[..]) <= Whites(entry)
      && (!hadError ==> forall k :: 0 <= k < dep ==> Settled(draft.dependencyNames[id][k]))
    }

    ghost predicate Settled(name: string)
      reads colors
    {
      var to := FindTargetId(draft.index, name);
      IsValid(to) ==> to < colors.Length && colors[to].Black?
    }

    lemma SettledDependencies(id: nat, entry: seq<Color>)
      requires Valid() && id < colors.Length && Within(id, entry, |draft.dependencyNames[id]|) && !hadError
      ensures forall v: nat :: Edge(ExplicitGraph(draft), id, v) ==> v in finished
    {
      var names := draft.dependencyNames[id];
      forall v: nat | Edge(ExplicitGraph(draft), id, v) ensures v in finished {
        InValidIds(FindAll(names, draft.index), v);
        var k :| 0 <= k < |names| && FindAll(names, draft.index)[k] == v && v != INVALID;
        assert Settled(names[k]);
      }
    }

    method Visit(id: nat)
      requires Valid() && id < colors.Length && colors[id].White?
      requires GraysReach(ExplicitGraph(draft), colors[..], id)
      modifies this, colors
      ensures Valid() && (old(hadError) ==> hadError)
      ensures Advanced(old(colors[..]), colors[..]) && colors[id].Black?
      decreases Whites(colors[..]), 0
    {
      ghost var g := ExplicitGraph(draft);
      ghost var entry := colors[..];
      Starting(g, entry, finished, hadError, before, id);
      colors[id] := Gray;
      ghost var marked := colors[..];
      assert marked == entry[id := Gray];
      for dep := 0 to |draft.dependencyNames[id]|
        invariant Within(id, marked, dep) && (old(hadError) ==> hadError)
      {
        var depId := FindTargetId(draft.index, draft.dependencyNames[id][dep]);
        if IsValid(depId) {
          VisitDependency(id, depId, dep, marked);
        }
      }
      if !hadError {
        SettledDependencies(id, marked);
      }
      ghost var visited := colors[..];
      Finishing(g, entry, visited, finished, hadError, before, id);
      colors[id] := Black;
      assert colors[..] == visited[id := Black];
      finished := finished + [id];
    }

    /** The body of the loop over the dependencies that resolve. */
    method VisitDependency(id: nat, depId: Id, ghost dep: nat, ghost entry: seq<Color>)
      requires Within(id, entry, dep) && dep < |draft.dependencyNames[id]|
      requires IsValid(depId) && depId == FindTargetId(draft.index, draft.dependencyNames[id][dep])
      modifies this, colors
      ensures Within(id, entry, dep + 1) && (old(hadError) ==> hadError)
      decreases Whites(entry), 1
    {
      ghost var g, here := ExplicitGraph(draft), colors[..];
      InValidIds(FindAll(draft.dependencyNames[id], draft.index), depId);
      assert FindAll(draft.dependencyNames[id], draft.index)[dep] == depId;
      assert Edge(g, id, depId) && depId < colors.Length;
      if colors[depId].Gray? {
        BackEdgeClosesCycle(g, id, depId);
        hadError := true;
        return;
      }
      if colors[depId].White? {
        GraysReachAlongEdge(g, colors[..], id, depId);
        Visit(depId);
        AdvancedIsTransitive(entry, here, colors[..]);
      }
    }
  }

  /** An error is raised if and only if the explicit dependencies that resolve form a cycle. */
  method ValidateExplicitCycles(draft: DependencyDraft, hadError: bool)
    returns (hadError': bool, ghost order: seq<nat>)
    requires draft.IndexInRange()
    ensures hadError' <==> hadError || HasCycle(ExplicitGraph(draft))
    ensures !hadError' ==> IsBuildOrder(ExplicitGraph(draft), order)
  {
    var check := new ExplicitCycleCheck(draft, hadError);
    for i := 0 to check.colors.Length
      invariant check.Valid()
      invariant forall u :: 0 <= u < i ==> check.colors[u].Black?
      invariant forall u :: i <= u < check.colors.Length ==> !check.colors[u].Gray?
    {
      if check.colors[i].White? {
        check.Visit(i);
      }
    }
    FinishedSearchIsExact(ExplicitGraph(draft), check.colors[..], check.finished, check.hadError, hadError);
    return check.hadError, check.finished;
  }
}
