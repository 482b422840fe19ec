/** The builder: a state machine that turns a stream of events into a draft. */
module Builder {
  import opened Ids
  import opened Records
  import opened Aliases
  import CycleCheck

  // ---- records ----

  datatype Directory = Directory(id: Id, parentId: Id, ownerDirectoryId: Id, sourceDir: string, binaryDir: string)

  datatype Target = Target(
    id: Id,
    ownerDirectoryId: Id,
    name: string,
    kind: TargetKind,
    declared: bool,
    imported: bool,
    alias: bool,
    aliasOfName: string,
    dependencyNames: seq<string>)

  datatype BuildStep = BuildStep(
    id: Id,
    ownerDirectoryId: Id,
    stepKey: string,
    kind: StepKind,
    ownerTargetName: string,
    outputs: seq<string>)

  datatype Draft = Draft(
    directories: seq<Directory>,
    targets: seq<Target>,
    targetNameIndex: seq<NameIndexEntry>,
    buildSteps: seq<BuildStep>,
    rootDirectoryId: Id,
    hasSemanticEntities: bool)

  datatype State = State(draft: Draft, directoryStack: seq<Id>, hasFatalError: bool)

  // ---- events ----

  /** The events that touch directories, targets and build steps. OtherTargetEvent stands for the
      events that add an item to a known target, OtherEvent for those of the handlers that keep
      records of their own; accepted says whether such an event passes the checks of its own. */
  datatype Event =
    | NotSemantic
    | Unsupported
    | DirectoryEnter(sourceDir: string, binaryDir: string)
    | DirectoryLeave(sourceDir: string, binaryDir: string)
    | DirectoryPropertyMutate
    | TargetDeclare(name: string, kind: TargetKind, imported: bool, alias: bool, aliasOf: string)
    | TargetPropSet(name: string, setsImported: Option<bool>)
    | TargetAddDependency(name: string, dependency: string)
    | OtherTargetEvent(name: string, accepted: bool)
    | BuildStepDeclare(stepKey: string, stepKind: StepKind, ownerTargetName: string)
    | BuildStepAddOutput(stepKey: string, path: string)
    | OtherEvent(accepted: bool)

  // ---- look-ups ----

  function CurrentDirectoryId(stack: seq<Id>): Id {
    if stack == [] then INVALID else stack[|stack| - 1]
  }

  /** The position of the first build step with the key. */
  function FindStep(steps: seq<BuildStep>, key: string): (position: Option<nat>)
    ensures position.Some? ==> position.value < |steps| && steps[position.value].stepKey == key
    ensures position.None? ==> forall i :: 0 <= i < |steps| ==> steps[i].stepKey != key
  {
    if steps == [] then None
    else if steps[0].stepKey == key then Some(0)
    else match FindStep(steps[1..], key)
      case None => assert forall i :: 0 < i < |steps| ==> steps[i] == steps[1..][i - 1]; None
      case Some(i) => Some(i + 1)
  }

  // ---- the transition function ----

  const INITIAL: State := State(Draft([], [], [], [], INVALID, false), [], false)

  function Fail(s: State): (State, bool) {
    (s.(hasFatalError := true), false)
  }

  /** A target record that has been mentioned but not declared. */
  function Placeholder(s: State, name: string): Target {
    Target(ToId(|s.draft.targets|), CurrentDirectoryId(s.directoryStack), name, Utility, false, false, false, "", [])
  }

  function WithPlaceholder(s: State, name: string): State {
    var t := Placeholder(s, name);
    s.(draft := s.draft.(targets := s.draft.targets + [t],
                         targetNameIndex := s.draft.targetNameIndex + [NameIndexEntry(name, t.id)]))
  }

  function WithTarget(s: State, id: Id, t: Target): State
    requires id < |s.draft.targets|
  {
    s.(draft := s.draft.(targets := s.draft.targets[id := t]))
  }

  function Enter(s: State, sourceDir: string, binaryDir: string): State {
    var id := ToId(|s.draft.directories|);
    var d := Directory(id, CurrentDirectoryId(s.directoryStack), id, sourceDir, binaryDir);
    var root := if IsValid(s.draft.rootDirectoryId) then s.draft.rootDirectoryId else id;
    s.(draft := s.draft.(directories := s.draft.directories + [d], rootDirectoryId := root),
       directoryStack := s.directoryStack + [id])
  }

  function Leave(s: State, sourceDir: string, binaryDir: string): (State, bool) {
    var id := CurrentDirectoryId(s.directoryStack);
    if !IsValid(id) || id >= |s.draft.directories| then Fail(s)
    else
      var d := s.draft.directories[id];
      if d.sourceDir != sourceDir || d.binaryDir != binaryDir then Fail(s)
      else (s.(directoryStack := s.directoryStack[..|s.directoryStack| - 1]), true)
  }

  function Declared(t: Target, owner: Id, ev: Event): Target
    requires ev.TargetDeclare?
  {
    t.(ownerDirectoryId := owner, kind := ev.kind, imported := ev.imported, alias := ev.alias,
       declared := true, aliasOfName := ev.aliasOf)
  }

  function Declare(s: State, ev: Event): (State, bool)
    requires ev.TargetDeclare?
  {
    var owner := CurrentDirectoryId(s.directoryStack);
    if !IsValid(owner) then Fail(s)
    else
      var found := FindTargetId(s.draft.targetNameIndex, ev.name);
      if IsValid(found) && found < |s.draft.targets| then
        if s.draft.targets[found].declared then Fail(s)
        else (WithTarget(s, found, Declared(s.draft.targets[found], owner, ev)), true)
      else
        var t := Declared(Placeholder(s, ev.name), owner, ev);
        var created := WithPlaceholder(s, ev.name);
        (created.(draft := created.draft.(targets := s.draft.targets + [t])), true)
  }

  function SetProperty(s: State, name: string, setsImported: Option<bool>): (State, bool) {
    var found := FindTargetId(s.draft.targetNameIndex, name);
    if IsValid(found) && found < |s.draft.targets| then
      var t := s.draft.targets[found];
      (WithTarget(s, found, if setsImported.Some? then t.(imported := setsImported.value) else t), true)
    else if !IsValid(CurrentDirectoryId(s.directoryStack)) then Fail(s)
    else
      var t := Placeholder(s, name);
      var created := WithPlaceholder(s, name);
      var t' := if setsImported.Some? then t.(imported := setsImported.value) else t;
      (created.(draft := created.draft.(targets := s.draft.targets + [t'])), true)
  }

  function AddDependency(s: State, name: string, dependency: string): (State, bool) {
    var found := FindTargetId(s.draft.targetNameIndex, name);
    if IsValid(found) && found < |s.draft.targets| then
      var t := s.draft.targets[found];
      (WithTarget(s, found, t.(dependencyNames := t.dependencyNames + [dependency])), true)
    else Fail(s)
  }

  function DeclareStep(s: State, key: string, kind: StepKind, owner: string): (State, bool) {
    var directory := CurrentDirectoryId(s.directoryStack);
    if !IsValid(directory) then Fail(s)
    else if FindStep(s.draft.buildSteps, key).Some? then Fail(s)
    else
      var step := BuildStep(ToId(|s.draft.buildSteps|), directory, key, kind, owner, []);
      (s.(draft := s.draft.(buildSteps := s.draft.buildSteps + [step])), true)
  }

  function AddOutput(s: State, key: string, path: string): (State, bool) {
    match FindStep(s.draft.buildSteps, key)
    case None => Fail(s)
    case Some(i) =>
      var step := s.draft.buildSteps[i];
      (s.(draft := s.draft.(buildSteps := s.draft.buildSteps[i := step.(outputs := step.outputs + [path])])), true)
  }

  /** One event of a builder that has not failed: the new state and the result of the call. */
  function Handle(s: State, ev: Event): (State, bool) {
    if ev.NotSemantic? then (s, true)
    else if ev.Unsupported? then Fail(s)
    else HandleSemantic(MarkSemantic(s), ev)
  }

  function HandleSemantic(s: State, ev: Event): (State, bool)
    requires !ev.NotSemantic? && !ev.Unsupported?
  {
    match ev
    case DirectoryEnter(src, bin) => (Enter(s, src, bin), true)
    case DirectoryLeave(src, bin) => Leave(s, src, bin)
    case DirectoryPropertyMutate => if IsValid(CurrentDirectoryId(s.directoryStack)) then (s, true) else Fail(s)
    case TargetDeclare(_, _, _, _, _) => Declare(s, ev)
    case TargetPropSet(name, setsImported) => SetProperty(s, name, setsImported)
    case TargetAddDependency(name, dependency) => AddDependency(s, name, dependency)
    case OtherTargetEvent(name, accepted) =>
      if IsValid(FindTargetId(s.draft.targetNameIndex, name)) && accepted then (s, true) else Fail(s)
    case BuildStepDeclare(key, kind, owner) => DeclareStep(s, key, kind, owner)
    case BuildStepAddOutput(key, path) => AddOutput(s, key, path)
    case OtherEvent(accepted) => if accepted then (s, true) else Fail(s)
  }

  function MarkSemantic(s: State): State {
    s.(draft := s.draft.(hasSemanticEntities := true))
  }

  /** A builder that has failed ignores every further event. */
  function Apply(s: State, ev: Event): (State, bool) {
    if s.hasFatalError then (s, false) else Handle(s, ev)
  }

  /** The stream is abandoned at the first event that is refused. */
  function Run(s: State, events: seq<Event>): State
    decreases |events|
  {
    if events == [] then s
    else
      var (next, ok) := Apply(s, events[0]);
      if ok then Run(next, events[1..]) else next
  }

  function Finalize(s: State): Option<Draft> {
    if s.hasFatalError || s.directoryStack != [] then None else Some(s.draft)
  }

  // ---- invariants ----

  ghost predicate GoodDirectories(ds: seq<Directory>) {
    forall i :: 0 <= i < |ds| ==>
      && ds[i].id == i && ds[i].ownerDirectoryId == i
      && (ds[i].parentId == INVALID || ds[i].parentId < i)
  }

  /** The stack is the chain of parents from the current directory up to a root. */
  ghost predicate GoodStack(ds: seq<Directory>, stack: seq<Id>) {
    && (forall k :: 0 <= k < |stack| ==> stack[k] < |ds|)
    && (stack != [] ==> ds[stack[0]].parentId == INVALID)
    && (forall j, k :: 0 <= j < k < |stack| && k == j + 1 ==> ds[stack[k]].parentId == stack[j])
  }

  ghost predicate GoodTargets(ts: seq<Target>, directories: nat) {
    && (forall i :: 0 <= i < |ts| ==> ts[i].id == i && ts[i].ownerDirectoryId < directories)
    && (forall i, j :: 0 <= i < j < |ts| ==> ts[i].name != ts[j].name)
  }

  /** The index lists every target once, at its own position. */
  ghost predicate GoodIndex(ts: seq<Target>, index: seq<NameIndexEntry>) {
    |index| == |ts| && forall i :: 0 <= i < |ts| ==> index[i].name == ts[i].name && index[i].id == i
  }

  ghost predicate GoodSteps(steps: seq<BuildStep>, directories: nat) {
    && (forall i :: 0 <= i < |steps| ==> steps[i].id == i && steps[i].ownerDirectoryId < directories)
    && (forall i, j :: 0 <= i < j < |steps| ==> steps[i].stepKey != steps[j].stepKey)
  }

  ghost predicate GoodDraft(d: Draft) {
    && |d.directories| <= INVALID && |d.targets| <= INVALID && |d.buildSteps| <= INVALID
    && GoodDirectories(d.directories)
    && GoodTargets(d.targets, |d.directories|)
    && GoodIndex(d.targets, d.targetNameIndex)
    && GoodSteps(d.buildSteps, |d.directories|)
    && d.rootDirectoryId == (if d.directories == [] then INVALID else 0)
  }

  ghost predicate Good(s: State) {
    GoodDraft(s.draft) && GoodStack(s.draft.directories, s.directoryStack)
  }

  /** Room for one more record of each sort under 32-bit ids. */
  ghost predicate HasRoom(d: Draft) {
    |d.directories| < INVALID && |d.targets| < INVALID && |d.buildSteps| < INVALID
  }

  lemma IndexFinds(ts: seq<Target>, index: seq<NameIndexEntry>, name: string)
    requires GoodIndex(ts, index) && |ts| <= INVALID
    ensures var found := FindTargetId(index, name);
      && (IsValid(found) ==> found < |ts| && ts[found].name == name)
      && (!IsValid(found) ==> forall i :: 0 <= i < |ts| ==> ts[i].name != name)
  {
    var found := FindTargetId(index, name);
    assert forall i :: 0 <= i < |index| ==> index[i].id != INVALID;
    if IsValid(found) {
      var i :| 0 <= i < |index| && index[i] == NameIndexEntry(name, found);
    } else {
      assert NameIndexEntry(name, INVALID) !in index;
      forall i | 0 <= i < |ts| ensures ts[i].name != name {
        assert index[i].name == ts[i].name;
      }
    }
  }

  lemma PushKeepsGoodStack(ds: seq<Directory>, stack: seq<Id>, d: Directory)
    requires GoodStack(ds, stack) && |ds| < INVALID && d.parentId == CurrentDirectoryId(stack)
    ensures GoodStack(ds + [d], stack + [ToId(|ds|)])
  {
    var ds' := ds + [d];
    forall k | 0 <= k < |stack| ensures ds'[stack[k]] == ds[stack[k]] {
    }
  }

  lemma EnterKeepsGood(s: State, sourceDir: string, binaryDir: string)
    requires Good(s) && HasRoom(s.draft)
    ensures Good(Enter(s, sourceDir, binaryDir))
  {
    var s' := Enter(s, sourceDir, binaryDir);
    var ds, ds' := s.draft.directories, s'.draft.directories;
    var stack, stack' := s.directoryStack, s'.directoryStack;
    PushKeepsGoodStack(ds, stack, ds'[|ds|]);
    assert CurrentDirectoryId(stack) == INVALID || CurrentDirectoryId(stack) < |ds|;
  }

  lemma LeaveKeepsGood(s: State, sourceDir: string, binaryDir: string)
    requires Good(s)
    ensures Good(Leave(s, sourceDir, binaryDir).0)
  {
  }

  lemma NewTargetKeepsGood(d: Draft, t: Target)
    requires GoodDraft(d) && HasRoom(d)
    requires t.id == |d.targets| && t.ownerDirectoryId < |d.directories|
    requires forall i :: 0 <= i < |d.targets| ==> d.targets[i].name != t.name
    ensures GoodDraft(d.(targets := d.targets + [t],
                         targetNameIndex := d.targetNameIndex + [NameIndexEntry(t.name, t.id)]))
  {
  }

  lemma ChangedTargetKeepsGood(d: Draft, id: nat, t: Target)
    requires GoodDraft(d) && id < |d.targets|
    requires t.id == id && t.name == d.targets[id].name && t.ownerDirectoryId < |d.directories|
    ensures GoodDraft(d.(targets := d.targets[id := t]))
  {
  }

  lemma StackTopIsDirectory(s: State)
    requires Good(s) && IsValid(CurrentDirectoryId(s.directoryStack))
    ensures CurrentDirectoryId(s.directoryStack) < |s.draft.directories|
  {
  }

  lemma DeclareKeepsGood(s: State, ev: Event)
    requires Good(s) && HasRoom(s.draft) && ev.TargetDeclare?
    ensures Good(Declare(s, ev).0)
  {
    var d := s.draft;
    IndexFinds(d.targets, d.targetNameIndex, ev.name);
    var owner := CurrentDirectoryId(s.directoryStack);
    if IsValid(owner) {
      StackTopIsDirectory(s);
      var found := FindTargetId(d.targetNameIndex, ev.name);
      if IsValid(found) {
        ChangedTargetKeepsGood(d, found, Declared(d.targets[found], owner, ev));
      } else {
        NewTargetKeepsGood(d, Declared(Placeholder(s, ev.name), owner, ev));
      }
    }
  }

  lemma SetPropertyKeepsGood(s: State, name: string, setsImported: Option<bool>)
    requires Good(s) && HasRoom(s.draft)
    ensures Good(SetProperty(s, name, setsImported).0)
  {
    var d := s.draft;
    IndexFinds(d.targets, d.targetNameIndex, name);
    var found := FindTargetId(d.targetNameIndex, name);
    if IsValid(found) {
      var t := d.targets[found];
      ChangedTargetKeepsGood(d, found, if setsImported.Some? then t.(imported := setsImported.value) else t);
    } else if IsValid(CurrentDirectoryId(s.directoryStack)) {
      StackTopIsDirectory(s);
      var t := Placeholder(s, name);
      NewTargetKeepsGood(d, if setsImported.Some? then t.(imported := setsImported.value) else t);
    }
  }

  lemma AddDependencyKeepsGood(s: State, name: string, dependency: string)
    requires Good(s)
    ensures Good(AddDependency(s, name, dependency).0)
  {
    var d := s.draft;
    IndexFinds(d.targets, d.targetNameIndex, name);
    var found := FindTargetId(d.targetNameIndex, name);
    if IsValid(found) {
      var t := d.targets[found];
      ChangedTargetKeepsGood(d, found, t.(dependencyNames := t.dependencyNames + [dependency]));
    }
  }

  lemma DeclareStepKeepsGood(s: State, key: string, kind: StepKind, owner: string)
    requires Good(s) && HasRoom(s.draft)
    ensures Good(DeclareStep(s, key, kind, owner).0)
  {
    if IsValid(CurrentDirectoryId(s.directoryStack)) {
      StackTopIsDirectory(s);
    }
  }

  lemma AddOutputKeepsGood(s: State, key: string, path: string)
    requires Good(s)
    ensures Good(AddOutput(s, key, path).0)
  {
  }

  lemma FailKeepsGood(s: State)
    requires Good(s)
    ensures Good(Fail(s).0)
  {
  }

  lemma MarkKeepsGood(s: State)
    requires Good(s)
    ensures Good(MarkSemantic(s)) && (HasRoom(s.draft) ==> HasRoom(MarkSemantic(s).draft))
  {
  }

  lemma HandleSemanticKeepsGood(s: State, ev: Event)
    requires Good(s) && HasRoom(s.draft) && !ev.NotSemantic? && !ev.Unsupported?
    ensures Good(HandleSemantic(s, ev).0)
  {
    match ev
    case DirectoryEnter(src, bin) => EnterKeepsGood(s, src, bin);
    case DirectoryLeave(src, bin) => LeaveKeepsGood(s, src, bin);
    case DirectoryPropertyMutate => FailKeepsGood(s);
    case TargetDeclare(_, _, _, _, _) => DeclareKeepsGood(s, ev);
    case TargetPropSet(name, setsImported) => SetPropertyKeepsGood(s, name, setsImported);
    case TargetAddDependency(name, dependency) => AddDependencyKeepsGood(s, name, dependency);
    case OtherTargetEvent(_, _) => FailKeepsGood(s);
    case BuildStepDeclare(key, kind, owner) => DeclareStepKeepsGood(s, key, kind, owner);
    case BuildStepAddOutput(key, path) => AddOutputKeepsGood(s, key, path);
    case OtherEvent(_) => FailKeepsGood(s);
  }

  /** Every event keeps the invariants, whether it is accepted or not. */
  lemma ApplyKeepsGood(s: State, ev: Event)
    requires Good(s) && HasRoom(s.draft)
    ensures Good(Apply(s, ev).0)
  {
    FailKeepsGood(s);
    MarkKeepsGood(s);
    if !ev.NotSemantic? && !ev.Unsupported? {
      HandleSemanticKeepsGood(MarkSemantic(s), ev);
    }
  }

  /** One event adds at most one record of each sort. */
  lemma ApplyGrowsByOne(s: State, ev: Event)
    ensures var d, d' := s.draft, Apply(s, ev).0.draft;
      && |d'.directories| <= |d.directories| + 1
      && |d'.targets| <= |d.targets| + 1
      && |d'.buildSteps| <= |d.buildSteps| + 1
  {
  }

  lemma {:induction false} RunKeepsGood(s: State, events: seq<Event>)
    requires Good(s)
    requires |s.draft.directories| + |events| <= INVALID
    requires |s.draft.targets| + |events| <= INVALID
    requires |s.draft.buildSteps| + |events| <= INVALID
    ensures Good(Run(s, events))
    decreases |events|
  {
    if events != [] {
      ApplyKeepsGood(s, events[0]);
      ApplyGrowsByOne(s, events[0]);
      RunKeepsGood(Apply(s, events[0]).0, events[1..]);
    }
  }

  /** Whatever the stream, as long as 32-bit ids suffice: ids are positions, parents have
      smaller ids, the stack is a parent chain, names are distinct and indexed once. */
  lemma EveryRunIsGood(events: seq<Event>)
    requires |events| <= INVALID
    ensures Good(Run(INITIAL, events))
    ensures Finalize(Run(INITIAL, events)).Some? ==> GoodDraft(Finalize(Run(INITIAL, events)).value)
  {
    RunKeepsGood(INITIAL, events);
  }

  // ---- what later stages rely on ----

  function Dependencies(d: Draft): CycleCheck.DependencyDraft {
    CycleCheck.DependencyDraft(
      seq(|d.targets|, i requires 0 <= i < |d.targets| => d.targets[i].dependencyNames),
      d.targetNameIndex)
  }

  /** The id that freezing gives an alias; an empty name is not looked up. */
  function AliasOfId(d: Draft, aliasOfName: string): Id {
    if aliasOfName == "" then INVALID else FindTargetId(d.targetNameIndex, aliasOfName)
  }

  /** The alias table that freezing makes of the targets. */
  function FrozenAliases(d: Draft): AliasTable {
    seq(|d.targets|, i requires 0 <= i < |d.targets| =>
      if d.targets[i].alias then AliasOf(AliasOfId(d, d.targets[i].aliasOfName)) else Concrete)
  }

  /** The drafts of the builder meet what the cycle check and the alias resolution assume. */
  lemma GoodDraftIsInRange(d: Draft)
    requires GoodDraft(d)
    ensures Dependencies(d).IndexInRange()
    ensures TableFits(FrozenAliases(d)) && InRange(FrozenAliases(d))
    ensures IndexInRange(FrozenAliases(d), d.targetNameIndex)
  {
    var table := FrozenAliases(d);
    forall i | 0 <= i < |table| && table[i].AliasOf? ensures table[i].id < |table| || !IsValid(table[i].id) {
      IndexFinds(d.targets, d.targetNameIndex, d.targets[i].aliasOfName);
    }
  }

  // ---- the builder object ----

  class EventBuilder {
    var directories: seq<Directory>
    var targets: seq<Target>
    var targetNameIndex: seq<NameIndexEntry>
    var buildSteps: seq<BuildStep>
    var rootDirectoryId: Id
    var hasSemanticEntities: bool
    var directoryStack: seq<Id>
    var hasFatalError: bool

    ghost function Abstract(): State
      reads this
    {
      State(Draft(directories, targets, targetNameIndex, buildSteps, rootDirectoryId, hasSemanticEntities),
            directoryStack, hasFatalError)
    }

    constructor ()
      ensures Abstract() == INITIAL
    {
      directories, targets, targetNameIndex, buildSteps := [], [], [], [];
      rootDirectoryId, hasSemanticEntities := INVALID, false;
      directoryStack, hasFatalError := [], false;
    }

    method Error() returns (ok: bool)
      modifies this
      ensures (Abstract(), ok) == Fail(old(Abstract()))
    {
      hasFatalError := true;
      return false;
    }

    method HandleDirectoryEnter(sourceDir: string, binaryDir: string) returns (ok: bool)
      modifies this
      ensures ok && Abstract() == Enter(old(Abstract()), sourceDir, binaryDir)
    {
      var id := ToId(|directories|);
      var directory := Directory(id, CurrentDirectoryId(directoryStack), id, sourceDir, binaryDir);
      directories := directories + [directory];
      directoryStack := directoryStack + [id];
      if !IsValid(rootDirectoryId) {
        rootDirectoryId := id;
      }
      return true;
    }

    method HandleDirectoryLeave(sourceDir: string, binaryDir: string) returns (ok: bool)
      modifies this
      ensures (Abstract(), ok) == Leave(old(Abstract()), sourceDir, binaryDir)
    {
      var currentId := CurrentDirectoryId(directoryStack);
      if !IsValid(currentId) || currentId >= |directories| {
        ok := Error();
        return;
      }
      var current := directories[currentId];
      if current.sourceDir != sourceDir || current.binaryDir != binaryDir {
        ok := Error();
        return;
      }
      directoryStack := directoryStack[..|directoryStack| - 1];
      return true;
    }

    /** The position of the named target, a new placeholder's if there is none; None where no
        directory is active to own a new one. */
    method EnsurePlaceholder(name: string) returns (position: Option<nat>)
      requires GoodIndex(targets, targetNameIndex) && |targets| < INVALID
      modifies this`targets, this`targetNameIndex
      ensures var s, found := old(Abstract()), FindTargetId(old(targetNameIndex), name);
        if IsValid(found) then position == Some(found as nat) && found < |targets| && Abstract() == s
        else if !IsValid(CurrentDirectoryId(directoryStack)) then position.None? && Abstract() == s
        else position == Some(|s.draft.targets|) && |targets| == |s.draft.targets| + 1 && Abstract() == WithPlaceholder(s, name)
    {
      IndexFinds(targets, targetNameIndex, name);
      var found := ScanForTargetId(targetNameIndex, name);
      if IsValid(found) {
        return Some(found as nat);
      }
      var owner := CurrentDirectoryId(directoryStack);
      if !IsValid(owner) {
        return None;
      }
      var target := Target(ToId(|targets|), owner, name, Utility, false, false, false, "", []);
      targets := targets + [target];
      targetNameIndex := targetNameIndex + [NameIndexEntry(name, target.id)];
      return Some(|targets| - 1);
    }

    method HandleTargetDeclare(ev: Event) returns (ok: bool)
      requires ev.TargetDeclare? && GoodIndex(targets, targetNameIndex) && |targets| < INVALID
      modifies this
      ensures (Abstract(), ok) == Declare(old(Abstract()), ev)
    {
      var owner := CurrentDirectoryId(directoryStack);
      if !IsValid(owner) {
        ok := Error();
        return;
      }
      IndexFinds(targets, targetNameIndex, ev.name);
      var found := ScanForTargetId(targetNameIndex, ev.name);
      if IsValid(found) && targets[found].declared {
        ok := Error();
        return;
      }
      ghost var before := targets;
      var position := EnsurePlaceholder(ev.name);
      var at := position.value;
      targets := targets[at := Declared(targets[at], owner, ev)];
      assert !IsValid(found) ==> targets == before + [targets[at]];
      return true;
    }

    method HandleTargetPropSet(name: string, setsImported: Option<bool>) returns (ok: bool)
      requires GoodIndex(targets, targetNameIndex) && |targets| < INVALID
      modifies this
      ensures (Abstract(), ok) == SetProperty(old(Abstract()), name, setsImported)
    {
      ghost var before := targets;
      IndexFinds(targets, targetNameIndex, name);
      var position := EnsurePlaceholder(name);
      if position.None? {
        ok := Error();
        return;
      }
      var at := position.value;
      if setsImported.Some? {
        targets := targets[at := targets[at].(imported := setsImported.value)];
      }
      assert at < |before| ==> targets == before[at := targets[at]];
      assert at == |before| ==> targets == before + [targets[at]];
      return true;
    }

    method HandleTargetAddDependency(name: string, dependency: string) returns (ok: bool)
      requires GoodIndex(targets, targetNameIndex) && |targets| <= INVALID
      modifies this
      ensures (Abstract(), ok) == AddDependency(old(Abstract()), name, dependency)
    {
      IndexFinds(targets, targetNameIndex, name);
      var found := ScanForTargetId(targetNameIndex, name);
      if !IsValid(found) {
        ok := Error();
        return;
      }
      var target := targets[found];
      targets := targets[found := target.(dependencyNames := target.dependencyNames + [dependency])];
      return true;
    }

    method FindBuildStep(key: string) returns (position: Option<nat>)
      ensures position == FindStep(buildSteps, key)
    {
      for i := 0 to |buildSteps|
        invariant FindStep(buildSteps, key) ==
                  match FindStep(buildSteps[i..], key) { case None => None case Some(k) => Some(i + k) }
      {
        assert buildSteps[i..][0] == buildSteps[i] && buildSteps[i..][1..] == buildSteps[i + 1..];
        if buildSteps[i].stepKey == key {
          return Some(i);
        }
      }
      return None;
    }

    method HandleBuildStepDeclare(key: string, kind: StepKind, owner: string) returns (ok: bool)
      modifies this
      ensures (Abstract(), ok) == DeclareStep(old(Abstract()), key, kind, owner)
    {
      var directory := CurrentDirectoryId(directoryStack);
      if !IsValid(directory) {
        ok := Error();
        return;
      }
      var existing := FindBuildStep(key);
      if existing.Some? {
        ok := Error();
        return;
      }
      buildSteps := buildSteps + [BuildStep(ToId(|buildSteps|), directory, key, kind, owner, [])];
      return true;
    }

    method HandleBuildStepAddOutput(key: string, path: string) returns (ok: bool)
      modifies this
      ensures (Abstract(), ok) == AddOutput(old(Abstract()), key, path)
    {
      var position := FindBuildStep(key);
      if position.None? {
        ok := Error();
        return;
      }
      var step := buildSteps[position.value];
      buildSteps := buildSteps[position.value := step.(outputs := step.outputs + [path])];
      return true;
    }

    method ApplyEvent(ev: Event) returns (ok: bool)
      requires Good(Abstract()) && HasRoom(Abstract().draft)
      modifies this
      ensures (Abstract(), ok) == Apply(old(Abstract()), ev)
      ensures Good(Abstract())
    {
      ApplyKeepsGood(Abstract(), ev);
      if hasFatalError {
        return false;
      }
      if ev.NotSemantic? {
        return true;
      }
      if ev.Unsupported? {
        ok := Error();
        return;
      }
      hasSemanticEntities := true;
      ok := Dispatch(ev);
    }

    method Dispatch(ev: Event) returns (ok: bool)
      requires GoodIndex(targets, targetNameIndex) && |targets| < INVALID
      requires !ev.NotSemantic? && !ev.Unsupported? && !hasFatalError && hasSemanticEntities
      modifies this
      ensures (Abstract(), ok) == HandleSemantic(old(Abstract()), ev)
    {
      match ev {
        case DirectoryEnter(src, bin) => ok := HandleDirectoryEnter(src, bin);
        case DirectoryLeave(src, bin) => ok := HandleDirectoryLeave(src, bin);
        case DirectoryPropertyMutate =>
          if IsValid(CurrentDirectoryId(directoryStack)) { ok := true; } else { ok := Error(); }
        case TargetDeclare(_, _, _, _, _) => ok := HandleTargetDeclare(ev);
        case TargetPropSet(name, setsImported) => ok := HandleTargetPropSet(name, setsImported);
        case TargetAddDependency(name, dependency) => ok := HandleTargetAddDependency(name, dependency);
        case OtherTargetEvent(name, accepted) =>
          var found := ScanForTargetId(targetNameIndex, name);
          if IsValid(found) && accepted { ok := true; } else { ok := Error(); }
        case BuildStepDeclare(key, kind, owner) => ok := HandleBuildStepDeclare(key, kind, owner);
        case BuildStepAddOutput(key, path) => ok := HandleBuildStepAddOutput(key, path);
        case OtherEvent(accepted) =>
          if accepted { ok := true; } else { ok := Error(); }
      }
    }

    method FinalizeDraft() returns (draft: Option<Draft>)
      modifies this`hasFatalError
      ensures draft == Finalize(old(Abstract()))
      ensures draft.None? ==> hasFatalError
    {
      if hasFatalError {
        return None;
      }
      if |directoryStack| != 0 {
        hasFatalError := true;
        return None;
      }
      return Some(Draft(directories, targets, targetNameIndex, buildSteps, rootDirectoryId, hasSemanticEntities));
    }
  }

  ghost predicate SizeAtMost(s: State, n: nat) {
    |s.draft.directories| <= n && |s.draft.targets| <= n && |s.draft.buildSteps| <= n
  }

  lemma RunUnfolds(s: State, events: seq<Event>, i: nat)
    requires i < |events|
    ensures var (next, ok) := Apply(s, events[i]);
      Run(s, events[i..]) == if ok then Run(next, events[i + 1..]) else next
  {
    assert events[i..][0] == events[i] && events[i..][1..] == events[i + 1..];
  }

  lemma SizeAfter(s: State, ev: Event, n: nat)
    requires SizeAtMost(s, n) && n < INVALID
    ensures HasRoom(s.draft) && SizeAtMost(Apply(s, ev).0, n + 1)
  {
    ApplyGrowsByOne(s, ev);
  }

  /** The whole stream through one builder. */
  method BuildDraft(events: seq<Event>) returns (draft: Option<Draft>)
    requires |events| <= INVALID
    ensures draft == Finalize(Run(INITIAL, events))
    ensures draft.Some? ==> GoodDraft(draft.value)
  {
    var builder := new EventBuilder();
    EveryRunIsGood(events);
    assert events[0..] == events;
    var ok, i := true, 0;
    while ok && i < |events|
      invariant i <= |events|
      invariant ok ==> Good(builder.Abstract()) && SizeAtMost(builder.Abstract(), i)
      invariant (if ok then Run(builder.Abstract(), events[i..]) else builder.Abstract()) == Run(INITIAL, events)
      decreases |events| - i
    {
      SizeAfter(builder.Abstract(), events[i], i);
      RunUnfolds(builder.Abstract(), events, i);
      ok := builder.ApplyEvent(events[i]);
      i := i + 1;
    }
    draft := builder.FinalizeDraft();
  }
}
