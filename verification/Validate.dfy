/** The structural pass of the validator, and the proof that the drafts of the builder leave it
    next to nothing to report. */
module Validate {
  import opened Ids
  import opened Builder
  import opened Chains
  import opened DirectoryChains

  function Parents(ds: seq<Directory>): (parents: seq<Id>)
    ensures |parents| == |ds|
  {
    seq(|ds|, i requires 0 <= i < |ds| => ds[i].parentId)
  }

  ghost predicate CleanDirectory(ds: seq<Directory>, i: nat)
    requires i < |ds|
  {
    && ds[i].id == ToId(i)
    && ds[i].ownerDirectoryId == ds[i].id
    && (ds[i].parentId == INVALID || ds[i].parentId < |ds|)
    && ParentChainEnds(Parents(ds), ds[i].parentId)
  }

  predicate CleanOwner(directories: nat, owner: Id) {
    IsValid(owner) && owner < directories
  }

  predicate CleanTarget(directories: nat, t: Target, i: nat) {
    t.id == ToId(i) && t.name != "" && t.declared && CleanOwner(directories, t.ownerDirectoryId)
  }

  predicate CleanStep(directories: nat, step: BuildStep, i: nat) {
    step.id == ToId(i) && CleanOwner(directories, step.ownerDirectoryId)
  }

  ghost predicate DistinctNames(ts: seq<Target>) {
    forall i, j :: 0 <= i < j < |ts| ==> ts[i].name != ts[j].name
  }

  ghost predicate StructurallyClean(d: Draft) {
    && !(d.hasSemanticEntities && d.rootDirectoryId == INVALID)
    && (forall i :: 0 <= i < |d.directories| ==> CleanDirectory(d.directories, i))
    && (forall i :: 0 <= i < |d.targets| ==> CleanTarget(|d.directories|, d.targets[i], i))
    && DistinctNames(d.targets)
    && (forall i :: 0 <= i < |d.buildSteps| ==> CleanStep(|d.directories|, d.buildSteps[i], i))
  }

  method ValidateDirectories(ds: seq<Directory>, errorBefore: bool) returns (hadError: bool)
    ensures hadError <==> errorBefore || exists i :: 0 <= i < |ds| && !CleanDirectory(ds, i)
  {
    hadError := errorBefore;
    var parents := Parents(ds);
    for i := 0 to |ds|
      invariant hadError <==> errorBefore || exists k :: 0 <= k < i && !CleanDirectory(ds, k)
    {
      ghost var errorSoFar := hadError;
      if ds[i].id != ToId(i) {
        hadError := true;
      }
      if ds[i].ownerDirectoryId != ds[i].id {
        hadError := true;
      }
      if ds[i].parentId != INVALID && ds[i].parentId >= |ds| {
        hadError := true;
      }
      var ends := ValidateDirectoryChain(parents, ds[i].parentId);
      if !ends {
        hadError := true;
      }
      assert hadError <==> errorSoFar || !CleanDirectory(ds, i);
    }
  }

  method ValidateDuplicateTargetNames(ts: seq<Target>, errorBefore: bool) returns (hadError: bool)
    ensures hadError <==> errorBefore || !DistinctNames(ts)
  {
    hadError := errorBefore;
    for i := 0 to |ts|
      invariant (hadError <==> errorBefore || exists k, l :: 0 <= k < i && k < l < |ts| && ts[k].name == ts[l].name)
    {
      for j := i + 1 to |ts|
        invariant (hadError <==>
                   || errorBefore
                   || (exists k, l :: 0 <= k < i && k < l < |ts| && ts[k].name == ts[l].name)
                   || (exists l :: i < l < j && ts[i].name == ts[l].name))
      {
        if ts[i].name == ts[j].name {
          hadError := true;
        }
      }
    }
  }

  method ValidateTargets(directories: nat, ts: seq<Target>, errorBefore: bool) returns (hadError: bool)
    ensures hadError <==> errorBefore || exists i :: 0 <= i < |ts| && !CleanTarget(directories, ts[i], i)
  {
    hadError := errorBefore;
    for i := 0 to |ts|
      invariant hadError <==> errorBefore || exists k :: 0 <= k < i && !CleanTarget(directories, ts[k], k)
    {
      if ts[i].id != ToId(i) {
        hadError := true;
      }
      if ts[i].name == "" {
        hadError := true;
      }
      if !ts[i].declared {
        hadError := true;
      }
      if !CleanOwner(directories, ts[i].ownerDirectoryId) {
        hadError := true;
      }
    }
  }

  method ValidateSteps(directories: nat, steps: seq<BuildStep>, errorBefore: bool) returns (hadError: bool)
    ensures hadError <==> errorBefore || exists i :: 0 <= i < |steps| && !CleanStep(directories, steps[i], i)
  {
    hadError := errorBefore;
    for i := 0 to |steps|
      invariant hadError <==> errorBefore || exists k :: 0 <= k < i && !CleanStep(directories, steps[k], k)
    {
      if steps[i].id != ToId(i) {
        hadError := true;
      }
      if !CleanOwner(directories, steps[i].ownerDirectoryId) {
        hadError := true;
      }
    }
  }

  /** The pass reports an error exactly on the drafts that are not clean. */
  method ValidateStructural(d: Draft, errorBefore: bool) returns (hadError: bool)
    ensures hadError <==> errorBefore || !StructurallyClean(d)
  {
    hadError := errorBefore;
    if d.hasSemanticEntities && d.rootDirectoryId == INVALID {
      hadError := true;
    }
    hadError := ValidateDirectories(d.directories, hadError);
    hadError := ValidateTargets(|d.directories|, d.targets, hadError);
    hadError := ValidateDuplicateTargetNames(d.targets, hadError);
    hadError := ValidateSteps(|d.directories|, d.buildSteps, hadError);
  }

  // ---- the drafts of the builder ----

  /** Parents with smaller ids make every parent chain end. */
  lemma {:induction false} SmallerParentsEnd(ds: seq<Directory>, parent: Id)
    requires GoodDirectories(ds) && (parent == INVALID || parent < |ds|)
    ensures ParentChainEnds(Parents(ds), parent)
    decreases if IsValid(parent) then parent + 1 else 0
  {
    if IsValid(parent) {
      var links := ParentLinks(Parents(ds));
      var next := ds[parent].parentId;
      assert ds[parent].id == parent;
      if IsValid(next) {
        SmallerParentsEnd(ds, next);
        var c :| IsChainFrom(links, c, next);
        ChainPrepend(links, parent, c);
        assert IsChainFrom(links, [parent as nat] + c, parent);
      } else {
        assert IsChainFrom(links, [parent as nat], parent);
      }
    }
  }

  /** On a draft of the builder every id, owner, parent-chain and duplicate-name check passes:
      what can remain is a model without a directory and targets without declaration or name. */
  lemma GoodDraftIsCleanExactlyWhen(d: Draft)
    requires GoodDraft(d)
    ensures StructurallyClean(d) <==>
            && (d.hasSemanticEntities ==> d.directories != [])
            && forall i :: 0 <= i < |d.targets| ==> d.targets[i].declared && d.targets[i].name != ""
    ensures forall i :: 0 <= i < |d.directories| ==> CleanDirectory(d.directories, i)
    ensures DistinctNames(d.targets)
    ensures forall i :: 0 <= i < |d.buildSteps| ==> CleanStep(|d.directories|, d.buildSteps[i], i)
  {
    forall i | 0 <= i < |d.directories| ensures CleanDirectory(d.directories, i) {
      SmallerParentsEnd(d.directories, d.directories[i].parentId);
    }
    forall i | 0 <= i < |d.targets|
      ensures CleanTarget(|d.directories|, d.targets[i], i) <==> d.targets[i].declared && d.targets[i].name != ""
    {
      assert d.targets[i].id == i;
    }
  }

  // ---- the verdict in terms of the event stream ----

  /** The target an event may create, and the target an event declares. */
  function Mentions(ev: Event): set<string> {
    if ev.TargetDeclare? || ev.TargetPropSet? then {ev.name} else {}
  }

  function Declares(ev: Event): set<string> {
    if ev.TargetDeclare? then {ev.name} else {}
  }

  function AllMentioned(events: seq<Event>): set<string> {
    if events == [] then {} else Mentions(events[0]) + AllMentioned(events[1..])
  }

  function AllDeclared(events: seq<Event>): set<string> {
    if events == [] then {} else Declares(events[0]) + AllDeclared(events[1..])
  }

  function Names(ts: seq<Target>): set<string> {
    set i | 0 <= i < |ts| :: ts[i].name
  }

  function DeclaredNames(ts: seq<Target>): set<string> {
    set i | 0 <= i < |ts| && ts[i].declared :: ts[i].name
  }

  lemma NamesWithNew(ts: seq<Target>, t: Target)
    ensures Names(ts + [t]) == Names(ts) + {t.name}
    ensures DeclaredNames(ts + [t]) == DeclaredNames(ts) + (if t.declared then {t.name} else {})
  {
    var ts' := ts + [t];
    assert ts'[|ts|] == t;
    assert forall i :: 0 <= i < |ts| ==> ts'[i] == ts[i];
  }

  lemma NamesWithChanged(ts: seq<Target>, id: nat, t: Target)
    requires id < |ts| && t.name == ts[id].name && (ts[id].declared ==> t.declared)
    ensures Names(ts[id := t]) == Names(ts) == Names(ts) + {t.name}
    ensures DeclaredNames(ts[id := t]) == DeclaredNames(ts) + (if t.declared then {t.name} else {})
  {
    var ts' := ts[id := t];
    assert ts'[id] == t;
    forall i | 0 <= i < |ts| ensures ts'[i].name == ts[i].name && (ts[i].declared ==> ts'[i].declared) {
    }
  }

  lemma DeclareNames(s: State, ev: Event)
    requires Good(s) && ev.TargetDeclare? && Declare(s, ev).1
    ensures Names(Declare(s, ev).0.draft.targets) == Names(s.draft.targets) + {ev.name}
    ensures DeclaredNames(Declare(s, ev).0.draft.targets) == DeclaredNames(s.draft.targets) + {ev.name}
  {
    var d, owner := s.draft, CurrentDirectoryId(s.directoryStack);
    IndexFinds(d.targets, d.targetNameIndex, ev.name);
    var found := FindTargetId(d.targetNameIndex, ev.name);
    if IsValid(found) {
      NamesWithChanged(d.targets, found, Declared(d.targets[found], owner, ev));
    } else {
      NamesWithNew(d.targets, Declared(Placeholder(s, ev.name), owner, ev));
    }
  }

  lemma SetPropertyNames(s: State, name: string, setsImported: Option<bool>)
    requires Good(s) && SetProperty(s, name, setsImported).1
    ensures Names(SetProperty(s, name, setsImported).0.draft.targets) == Names(s.draft.targets) + {name}
    ensures DeclaredNames(SetProperty(s, name, setsImported).0.draft.targets) == DeclaredNames(s.draft.targets)
  {
    var d := s.draft;
    IndexFinds(d.targets, d.targetNameIndex, name);
    var found := FindTargetId(d.targetNameIndex, name);
    if IsValid(found) {
      var t := d.targets[found];
      NamesWithChanged(d.targets, found, if setsImported.Some? then t.(imported := setsImported.value) else t);
      assert d.targets[found].declared ==> name in DeclaredNames(d.targets);
    } else {
      var t := Placeholder(s, name);
      NamesWithNew(d.targets, if setsImported.Some? then t.(imported := setsImported.value) else t);
    }
  }

  lemma AddDependencyNames(s: State, name: string, dependency: string)
    requires Good(s)
    ensures Names(AddDependency(s, name, dependency).0.draft.targets) == Names(s.draft.targets)
    ensures DeclaredNames(AddDependency(s, name, dependency).0.draft.targets) == DeclaredNames(s.draft.targets)
  {
    var d := s.draft;
    IndexFinds(d.targets, d.targetNameIndex, name);
    var found := FindTargetId(d.targetNameIndex, name);
    if IsValid(found) {
      var t := d.targets[found];
      NamesWithChanged(d.targets, found, t.(dependencyNames := t.dependencyNames + [dependency]));
      assert t.declared ==> name in DeclaredNames(d.targets);
    }
  }

  lemma AcceptedEventNames(s: State, ev: Event)
    requires Good(s) && Apply(s, ev).1
    ensures Names(Apply(s, ev).0.draft.targets) == Names(s.draft.targets) + Mentions(ev)
    ensures DeclaredNames(Apply(s, ev).0.draft.targets) == DeclaredNames(s.draft.targets) + Declares(ev)
  {
    var marked := MarkSemantic(s);
    MarkKeepsGood(s);
    match ev {
      case TargetDeclare(_, _, _, _, _) => DeclareNames(marked, ev);
      case TargetPropSet(name, setsImported) => SetPropertyNames(marked, name, setsImported);
      case TargetAddDependency(name, dependency) => AddDependencyNames(marked, name, dependency);
      case _ =>
    }
  }

  /** A refused event leaves a failed builder. */
  lemma RefusedIsFatal(s: State, ev: Event)
    ensures !Apply(s, ev).1 ==> Apply(s, ev).0.hasFatalError
    ensures Apply(s, ev).1 ==> !s.hasFatalError && !Apply(s, ev).0.hasFatalError
  {
  }

  lemma AcceptedEventFlags(s: State, ev: Event)
    requires Apply(s, ev).1
    ensures Apply(s, ev).0.draft.hasSemanticEntities == (s.draft.hasSemanticEntities || !ev.NotSemantic?)
    ensures |Apply(s, ev).0.draft.directories| == |s.draft.directories| + (if ev.DirectoryEnter? then 1 else 0)
  {
  }

  predicate EntersDirectory(events: seq<Event>) {
    exists i :: 0 <= i < |events| && events[i].DirectoryEnter?
  }

  predicate IsSemantic(events: seq<Event>) {
    exists i :: 0 <= i < |events| && !events[i].NotSemantic?
  }

  ghost predicate RunEffect(s: State, events: seq<Event>, d: Draft) {
    && Names(d.targets) == Names(s.draft.targets) + AllMentioned(events)
    && DeclaredNames(d.targets) == DeclaredNames(s.draft.targets) + AllDeclared(events)
    && d.hasSemanticEntities == (s.draft.hasSemanticEntities || IsSemantic(events))
    && (d.directories == [] <==> s.draft.directories == [] && !EntersDirectory(events))
  }

  lemma {:induction false} RunHasEffect(s: State, events: seq<Event>)
    requires Good(s) && |events| <= INVALID && SizeAtMost(s, INVALID - |events|)
    requires !Run(s, events).hasFatalError
    ensures RunEffect(s, events, Run(s, events).draft)
    decreases |events|
  {
    if events != [] {
      var ev, rest := events[0], events[1..];
      var next := Apply(s, ev).0;
      RefusedIsFatal(s, ev);
      AcceptedEventNames(s, ev);
      AcceptedEventFlags(s, ev);
      SizeAfter(s, ev, INVALID - |events|);
      ApplyKeepsGood(s, ev);
      RunHasEffect(next, rest);
      FirstOrRest(events);
    }
  }

  lemma FirstOrRest(events: seq<Event>)
    requires events != []
    ensures IsSemantic(events) <==> !events[0].NotSemantic? || IsSemantic(events[1..])
    ensures EntersDirectory(events) <==> events[0].DirectoryEnter? || EntersDirectory(events[1..])
  {
    var rest := events[1..];
    assert forall i :: 0 < i < |events| ==> events[i] == rest[i - 1];
    if i :| 0 <= i < |rest| && !rest[i].NotSemantic? { assert events[i + 1] == rest[i]; }
    if i :| 0 <= i < |rest| && rest[i].DirectoryEnter? { assert events[i + 1] == rest[i]; }
  }

  /** The verdict on a stream the builder accepts, read off the stream itself: the structural
      pass is silent if and only if some directory is entered (or nothing semantic happens),
      no target has the empty name, and each target whose properties are set is declared. */
  lemma StreamIsCleanExactlyWhen(events: seq<Event>)
    requires |events| <= INVALID && Finalize(Run(INITIAL, events)).Some?
    ensures StructurallyClean(Finalize(Run(INITIAL, events)).value) <==>
            && (IsSemantic(events) ==> EntersDirectory(events))
            && "" !in AllMentioned(events)
            && AllMentioned(events) <= AllDeclared(events)
  {
    var d := Finalize(Run(INITIAL, events)).value;
    EveryRunIsGood(events);
    RunHasEffect(INITIAL, events);
    GoodDraftIsCleanExactlyWhen(d);
    assert Names(INITIAL.draft.targets) == {} && DeclaredNames(INITIAL.draft.targets) == {};
    AllDeclaredExactlyWhen(d.targets);
  }

  lemma AllDeclaredExactlyWhen(ts: seq<Target>)
    requires DistinctNames(ts)
    ensures (forall i :: 0 <= i < |ts| ==> ts[i].declared) <==> Names(ts) <= DeclaredNames(ts)
    ensures (forall i :: 0 <= i < |ts| ==> ts[i].name != "") <==> "" !in Names(ts)
  {
    if Names(ts) <= DeclaredNames(ts) {
      forall i | 0 <= i < |ts| ensures ts[i].declared {
        assert ts[i].name in Names(ts);
        var k :| 0 <= k < |ts| && ts[k].declared && ts[k].name == ts[i].name;
        assert !(i < k) && !(k < i);
      }
    }
  }

  // ---- directories opened and closed ----

  function Entered(events: seq<Event>): nat {
    if events == [] then 0 else (if events[0].DirectoryEnter? then 1 else 0) + Entered(events[1..])
  }

  function Left(events: seq<Event>): nat {
    if events == [] then 0 else (if events[0].DirectoryLeave? then 1 else 0) + Left(events[1..])
  }

  lemma AcceptedEventDepth(s: State, ev: Event)
    requires Apply(s, ev).1
    ensures |Apply(s, ev).0.directoryStack| + (if ev.DirectoryLeave? then 1 else 0) ==
            |s.directoryStack| + (if ev.DirectoryEnter? then 1 else 0)
  {
  }

  lemma {:induction false} RunDepth(s: State, events: seq<Event>)
    requires !Run(s, events).hasFatalError
    ensures |Run(s, events).directoryStack| + Left(events) == |s.directoryStack| + Entered(events)
    ensures |Run(s, events).draft.directories| == |s.draft.directories| + Entered(events)
    decreases |events|
  {
    if events != [] {
      RefusedIsFatal(s, events[0]);
      AcceptedEventDepth(s, events[0]);
      AcceptedEventFlags(s, events[0]);
      RunDepth(Apply(s, events[0]).0, events[1..]);
    }
  }

  /** A stream gives a draft only if it leaves every directory it enters; the draft has one
      record for each. */
  lemma AcceptedStreamIsBalanced(events: seq<Event>)
    requires Finalize(Run(INITIAL, events)).Some?
    ensures Entered(events) == Left(events) == |Finalize(Run(INITIAL, events)).value.directories|
  {
    RunDepth(INITIAL, events);
  }

  // ---- what the checks come to ----

  /** The directories of the list, each the parent of the one before, up to one without parent. */
  ghost predicate IsParentWalk(ds: seq<Directory>, c: seq<Id>) {
    && |c| > 0
    && (forall k :: 0 <= k < |c| ==> c[k] < |ds|)
    && (forall k :: 0 <= k < |c| - 1 ==> ds[c[k]].parentId == c[k + 1])
    && ds[c[|c| - 1]].parentId == INVALID
  }

  /** Going from one parent to the next ends at a directory without parent. */
  ghost predicate LeadsToRoot(ds: seq<Directory>, parent: Id) {
    parent == INVALID || exists c: seq<Id> :: IsParentWalk(ds, c) && c[0] == parent
  }

  lemma WalkIsChain(ds: seq<Directory>, c: seq<Id>)
    requires |ds| <= INVALID && IsParentWalk(ds, c)
    ensures IsChainFrom(ParentLinks(Parents(ds)), seq<nat>(|c|, k requires 0 <= k < |c| => c[k] as nat), c[0])
  {
    var links, chain := ParentLinks(Parents(ds)), seq<nat>(|c|, k requires 0 <= k < |c| => c[k] as nat);
    forall k | 0 <= k < |chain| - 1 ensures links[chain[k]] == Some(chain[k + 1]) {
      assert ds[c[k]].parentId == c[k + 1];
    }
  }

  lemma ChainIsWalk(ds: seq<Directory>, chain: seq<nat>) returns (c: seq<Id>)
    requires |ds| <= INVALID && IsChain(ParentLinks(Parents(ds)), chain)
    ensures IsParentWalk(ds, c) && c[0] == chain[0]
  {
    var links := ParentLinks(Parents(ds));
    assert forall k :: 0 <= k < |chain| ==> chain[k] < |ds|;
    c := seq<Id>(|chain|, k requires 0 <= k < |chain| => chain[k]);
    forall k | 0 <= k < |c| - 1 ensures ds[c[k]].parentId == c[k + 1] {
      assert links[chain[k]] == Some(chain[k + 1]);
    }
  }

  lemma ChainMeans(ds: seq<Directory>, parent: Id)
    requires |ds| <= INVALID
    ensures ParentChainEnds(Parents(ds), parent) <==> LeadsToRoot(ds, parent)
  {
    var links := ParentLinks(Parents(ds));
    if IsValid(parent) && ParentChainEnds(Parents(ds), parent) {
      var chain :| IsChainFrom(links, chain, parent);
      var c := ChainIsWalk(ds, chain);
    }
    if c: seq<Id> :| IsParentWalk(ds, c) && c[0] == parent {
      WalkIsChain(ds, c);
    }
  }

  /** The whole list of demands on a draft whose positions fit into ids. */
  lemma StructurallyCleanMeans(d: Draft)
    requires |d.directories| <= INVALID && |d.targets| <= INVALID && |d.buildSteps| <= INVALID
    ensures StructurallyClean(d) <==>
      && (d.hasSemanticEntities ==> d.rootDirectoryId != INVALID)
      && (forall i :: 0 <= i < |d.directories| ==>
            && d.directories[i].id == i && d.directories[i].ownerDirectoryId == i
            && (d.directories[i].parentId == INVALID || d.directories[i].parentId < |d.directories|)
            && LeadsToRoot(d.directories, d.directories[i].parentId))
      && (forall i :: 0 <= i < |d.targets| ==>
            && d.targets[i].id == i && d.targets[i].name != "" && d.targets[i].declared
            && d.targets[i].ownerDirectoryId < |d.directories|)
      && (forall i, j :: 0 <= i < |d.targets| && 0 <= j < |d.targets| && i != j ==> d.targets[i].name != d.targets[j].name)
      && (forall i :: 0 <= i < |d.buildSteps| ==>
            d.buildSteps[i].id == i && d.buildSteps[i].ownerDirectoryId < |d.directories|)
  {
    forall i | 0 <= i < |d.directories|
      ensures CleanDirectory(d.directories, i) <==>
        && d.directories[i].id == i && d.directories[i].ownerDirectoryId == i
        && (d.directories[i].parentId == INVALID || d.directories[i].parentId < |d.directories|)
        && LeadsToRoot(d.directories, d.directories[i].parentId)
    {
      ChainMeans(d.directories, d.directories[i].parentId);
    }
    DistinctMeans(d.targets);
  }

  lemma DistinctMeans(ts: seq<Target>)
    ensures DistinctNames(ts) <==> forall i, j :: 0 <= i < |ts| && 0 <= j < |ts| && i != j ==> ts[i].name != ts[j].name
  {
    if DistinctNames(ts) {
      forall i, j | 0 <= i < |ts| && 0 <= j < |ts| && i != j ensures ts[i].name != ts[j].name {
        assert i < j || j < i;
      }
    }
  }
}
