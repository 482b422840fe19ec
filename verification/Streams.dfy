/** The draft of a stream of events, read off the stream: without positions, name index or
    directory stack, and without a state. The builder makes exactly this draft. */
module Streams {
  import opened Ids
  import opened Records
  import opened Builder
  import Validate

  // ---- directories ----

  /** The texts of the directories entered, in order. */
  function Entered(events: seq<Event>): seq<(string, string)> {
    if events == [] then []
    else
      var before, last := Entered(events[..|events| - 1]), events[|events| - 1];
      if last.DirectoryEnter? then before + [(last.sourceDir, last.binaryDir)] else before
  }

  /** Which of the entered directories are open, the innermost last. */
  function Open(events: seq<Event>): seq<nat> {
    if events == [] then []
    else
      var init, last := events[..|events| - 1], events[|events| - 1];
      if last.DirectoryEnter? then Open(init) + [|Entered(init)|]
      else if last.DirectoryLeave? && Open(init) != [] then Open(init)[..|Open(init)| - 1]
      else Open(init)
  }

  function IdOf(position: Option<nat>): Id {
    if position.None? then INVALID else ToId(position.value)
  }

  function Innermost(events: seq<Event>): Option<nat> {
    if Open(events) == [] then None else Some(Open(events)[|Open(events)| - 1])
  }

  /** The directory in which each one was entered. */
  function EnteredIn(events: seq<Event>): seq<Option<nat>> {
    if events == [] then []
    else
      var init, last := events[..|events| - 1], events[|events| - 1];
      EnteredIn(init) + if last.DirectoryEnter? then [Innermost(init)] else []
  }

  // ---- targets ----

  function Mentioned(ev: Event): Option<string> {
    if ev.TargetDeclare? || ev.TargetPropSet? then Some(ev.name) else None
  }

  /** The names of the targets, in the order of their first mention. */
  function Names(events: seq<Event>): seq<string> {
    if events == [] then []
    else
      var before, last := Names(events[..|events| - 1]), Mentioned(events[|events| - 1]);
      if last.Some? && last.value !in before then before + [last.value] else before
  }

  predicate Declares(events: seq<Event>, name: string) {
    exists i :: 0 <= i < |events| && events[i].TargetDeclare? && events[i].name == name
  }

  /** The declaration of the target, the last one where there are several. */
  function Declaration(events: seq<Event>, name: string): Option<Event> {
    if events == [] then None
    else
      var last := events[|events| - 1];
      if last.TargetDeclare? && last.name == name then Some(last) else Declaration(events[..|events| - 1], name)
  }

  /** The directory in which the target was declared, or first mentioned as long as it is not. */
  function OwnerOf(events: seq<Event>, name: string): Option<nat> {
    if events == [] then None
    else
      var init, last := events[..|events| - 1], events[|events| - 1];
      if last.TargetDeclare? && last.name == name then Innermost(init)
      else if last.TargetPropSet? && last.name == name && name !in Names(init) then Innermost(init)
      else OwnerOf(init, name)
  }

  /** What the last event that says so says of the target. */
  function ImportedOf(events: seq<Event>, name: string): bool {
    if events == [] then false
    else
      var last := events[|events| - 1];
      if last.TargetDeclare? && last.name == name then last.imported
      else if last.TargetPropSet? && last.name == name && last.setsImported.Some? then last.setsImported.value
      else ImportedOf(events[..|events| - 1], name)
  }

  /** The dependencies that are added to the target, in order. */
  function DependenciesOf(events: seq<Event>, name: string): seq<string> {
    if events == [] then []
    else
      var last := events[|events| - 1];
      DependenciesOf(events[..|events| - 1], name) +
      if last.TargetAddDependency? && last.name == name then [last.dependency] else []
  }

  function TargetOf(events: seq<Event>, position: nat, name: string): Target {
    var declaration := Declaration(events, name);
    Target(
      ToId(position),
      IdOf(OwnerOf(events, name)),
      name,
      if declaration.Some? && declaration.value.TargetDeclare? then declaration.value.kind else Utility,
      declaration.Some?,
      ImportedOf(events, name),
      declaration.Some? && declaration.value.TargetDeclare? && declaration.value.alias,
      if declaration.Some? && declaration.value.TargetDeclare? then declaration.value.aliasOf else "",
      DependenciesOf(events, name))
  }

  // ---- build steps ----

  /** The declarations of steps, in order, each with the directory it stands in. */
  function StepDeclarations(events: seq<Event>): seq<(Event, Option<nat>)> {
    if events == [] then []
    else
      var init, last := events[..|events| - 1], events[|events| - 1];
      StepDeclarations(init) + if last.BuildStepDeclare? then [(last, Innermost(init))] else []
  }

  predicate DeclaresStep(events: seq<Event>, key: string) {
    exists i :: 0 <= i < |events| && events[i].BuildStepDeclare? && events[i].stepKey == key
  }

  function OutputsOf(events: seq<Event>, key: string): seq<string> {
    if events == [] then []
    else
      var last := events[|events| - 1];
      OutputsOf(events[..|events| - 1], key) +
      if last.BuildStepAddOutput? && last.stepKey == key then [last.path] else []
  }

  function StepOf(events: seq<Event>, position: nat, declaration: (Event, Option<nat>)): BuildStep {
    if !declaration.0.BuildStepDeclare? then BuildStep(0, 0, "", OutputRule, "", [])
    else
      var d := declaration.0;
      BuildStep(ToId(position), IdOf(declaration.1), d.stepKey, d.stepKind, d.ownerTargetName, OutputsOf(events, d.stepKey))
  }

  // ---- the draft, and which streams have one ----

  function DirectoriesOf(texts: seq<(string, string)>, parents: seq<Option<nat>>): seq<Directory>
    requires |texts| == |parents|
  {
    seq(|texts|, i requires 0 <= i < |texts| => Directory(ToId(i), IdOf(parents[i]), ToId(i), texts[i].0, texts[i].1))
  }

  function TargetsOf(events: seq<Event>): seq<Target> {
    seq(|Names(events)|, i requires 0 <= i < |Names(events)| => TargetOf(events, i, Names(events)[i]))
  }

  function IndexOf(names: seq<string>): seq<NameIndexEntry> {
    seq(|names|, i requires 0 <= i < |names| => NameIndexEntry(names[i], ToId(i)))
  }

  function StepsOf(events: seq<Event>): seq<BuildStep> {
    seq(|StepDeclarations(events)|, i requires 0 <= i < |StepDeclarations(events)| =>
      StepOf(events, i, StepDeclarations(events)[i]))
  }

  lemma {:induction false} OneParentEach(events: seq<Event>)
    ensures |EnteredIn(events)| == |Entered(events)|
    decreases |events|
  {
    if events != [] {
      OneParentEach(events[..|events| - 1]);
    }
  }

  ghost function DraftOf(events: seq<Event>): Draft {
    OneParentEach(events);
    Draft(DirectoriesOf(Entered(events), EnteredIn(events)), TargetsOf(events), IndexOf(Names(events)), StepsOf(events),
          if Entered(events) == [] then INVALID else 0, Validate.IsSemantic(events))
  }

  /** May the event follow the others? */
  predicate Follows(events: seq<Event>, ev: Event) {
    match ev
    case NotSemantic => true
    case Unsupported => false
    case DirectoryEnter(_, _) => true
    case DirectoryLeave(src, bin) =>
      Innermost(events).Some? && Innermost(events).value < |Entered(events)| &&
      Entered(events)[Innermost(events).value] == (src, bin)
    case DirectoryPropertyMutate => Open(events) != []
    case TargetDeclare(name, _, _, _, _) => Open(events) != [] && !Declares(events, name)
    case TargetPropSet(name, _) => name in Names(events) || Open(events) != []
    case TargetAddDependency(name, _) => name in Names(events)
    case OtherTargetEvent(name, accepted) => name in Names(events) && accepted
    case BuildStepDeclare(key, _, _) => Open(events) != [] && !DeclaresStep(events, key)
    case BuildStepAddOutput(key, _) => DeclaresStep(events, key)
    case OtherEvent(accepted) => accepted
  }

  /** Every event may follow those before it. */
  predicate Accepted(events: seq<Event>) {
    forall i :: 0 <= i < |events| ==> Follows(events[..i], events[i])
  }

  // ---- one event more ----

  lemma Snoc(events: seq<Event>, ev: Event)
    ensures var all := events + [ev]; all != [] && all[..|all| - 1] == events && all[|all| - 1] == ev
  {
  }

  lemma {:induction false} Sizes(events: seq<Event>)
    ensures |Entered(events)| <= |events| && |Names(events)| <= |events| && |StepDeclarations(events)| <= |events|
    ensures forall k :: 0 <= k < |Open(events)| ==> Open(events)[k] < |Entered(events)|
    decreases |events|
  {
    if events != [] {
      Sizes(events[..|events| - 1]);
    }
  }

  lemma {:induction false} DeclaredExactlyWhen(events: seq<Event>, name: string)
    ensures Declares(events, name) <==> Declaration(events, name).Some?
    ensures Declaration(events, name).Some? ==> Declaration(events, name).value.TargetDeclare?
    decreases |events|
  {
    if events != [] {
      var init, n := events[..|events| - 1], |events| - 1;
      DeclaredExactlyWhen(init, name);
      if i :| 0 <= i < |init| && init[i].TargetDeclare? && init[i].name == name {
        assert events[i] == init[i];
      }
      if i :| 0 <= i < |events| && events[i].TargetDeclare? && events[i].name == name {
        assert i < n ==> init[i] == events[i];
      }
    }
  }

  lemma {:induction false} StepsAreDeclarations(events: seq<Event>)
    ensures forall k :: 0 <= k < |StepDeclarations(events)| ==> StepDeclarations(events)[k].0.BuildStepDeclare?
    decreases |events|
  {
    if events != [] {
      StepsAreDeclarations(events[..|events| - 1]);
    }
  }

  ghost predicate HasStep(declarations: seq<(Event, Option<nat>)>, key: string) {
    exists k :: 0 <= k < |declarations| && declarations[k].0.BuildStepDeclare? && declarations[k].0.stepKey == key
  }

  lemma {:induction false} StepDeclaredExactlyWhen(events: seq<Event>, key: string)
    ensures DeclaresStep(events, key) <==> HasStep(StepDeclarations(events), key)
    decreases |events|
  {
    if events != [] {
      var init, last := events[..|events| - 1], events[|events| - 1];
      StepDeclaredExactlyWhen(init, key);
      var before, after := StepDeclarations(init), StepDeclarations(events);
      if k :| 0 <= k < |before| && before[k].0.BuildStepDeclare? && before[k].0.stepKey == key {
        assert after[k] == before[k];
      }
      if k :| 0 <= k < |after| && after[k].0.BuildStepDeclare? && after[k].0.stepKey == key {
        assert k < |before| ==> before[k] == after[k];
      }
      if i :| 0 <= i < |init| && init[i].BuildStepDeclare? && init[i].stepKey == key {
        assert events[i] == init[i];
      }
      if i :| 0 <= i < |events| && events[i].BuildStepDeclare? && events[i].stepKey == key {
        assert i < |init| ==> init[i] == events[i];
        assert i == |init| ==> after[|before|] == (last, Innermost(init));
      }
    }
  }

  lemma AcceptedInit(events: seq<Event>)
    requires Accepted(events) && events != []
    ensures Accepted(events[..|events| - 1]) && Follows(events[..|events| - 1], events[|events| - 1])
  {
    var init := events[..|events| - 1];
    forall i | 0 <= i < |init| ensures Follows(init[..i], init[i]) {
      assert init[..i] == events[..i] && init[i] == events[i];
    }
  }

  lemma AcceptedSnoc(events: seq<Event>, ev: Event)
    ensures Accepted(events + [ev]) <==> Accepted(events) && Follows(events, ev)
  {
    var all := events + [ev];
    if Accepted(all) {
      AcceptedInit(all);
      Snoc(events, ev);
    }
    if Accepted(events) && Follows(events, ev) {
      forall i | 0 <= i < |all| ensures Follows(all[..i], all[i]) {
        if i < |events| {
          assert all[..i] == events[..i] && all[i] == events[i];
        } else {
          assert all[..i] == events;
        }
      }
    }
  }

  /** Nothing is known of a target before it is mentioned. */
  lemma {:induction false} UnmentionedIsBlank(events: seq<Event>, name: string)
    requires Accepted(events) && name !in Names(events)
    ensures Declaration(events, name).None? && !ImportedOf(events, name) && DependenciesOf(events, name) == []
    decreases |events|
  {
    if events != [] {
      AcceptedInit(events);
      UnmentionedIsBlank(events[..|events| - 1], name);
    }
  }

  lemma {:induction false} UndeclaredHasNoOutputs(events: seq<Event>, key: string)
    requires Accepted(events) && !DeclaresStep(events, key)
    ensures OutputsOf(events, key) == []
    decreases |events|
  {
    if events != [] {
      var init := events[..|events| - 1];
      AcceptedInit(events);
      forall i | 0 <= i < |init| ensures !(init[i].BuildStepDeclare? && init[i].stepKey == key) {
        assert init[i] == events[i];
      }
      UndeclaredHasNoOutputs(init, key);
    }
  }

  // ---- the state of the builder ----

  function IdsOf(positions: seq<nat>): seq<Id> {
    seq(|positions|, k requires 0 <= k < |positions| => ToId(positions[k]))
  }

  function StackOf(events: seq<Event>): seq<Id> {
    IdsOf(Open(events))
  }

  ghost function StateOf(events: seq<Event>): State {
    State(DraftOf(events), StackOf(events), false)
  }

  /** The state stands for the events, which so far were accepted. */
  ghost predicate Reads(s: State, events: seq<Event>) {
    s == StateOf(events) && Accepted(events) && Good(s) && |events| < INVALID
  }

  lemma CurrentIsInnermost(events: seq<Event>)
    requires |events| < INVALID
    ensures CurrentDirectoryId(StackOf(events)) == IdOf(Innermost(events))
    ensures IsValid(IdOf(Innermost(events))) <==> Open(events) != []
    ensures Innermost(events).Some? ==> Innermost(events).value < |Entered(events)| && IdOf(Innermost(events)) == Innermost(events).value
  {
    Sizes(events);
  }

  lemma FindsMentioned(s: State, events: seq<Event>, name: string)
    requires Reads(s, events)
    ensures var found := FindTargetId(s.draft.targetNameIndex, name);
      && (IsValid(found) <==> name in Names(events))
      && (IsValid(found) ==> found < |s.draft.targets| && Names(events)[found] == name)
      && |s.draft.targets| == |Names(events)| < INVALID
  {
    IndexFinds(s.draft.targets, s.draft.targetNameIndex, name);
    Sizes(events);
    if name in Names(events) {
      var i :| 0 <= i < |Names(events)| && Names(events)[i] == name;
      assert s.draft.targets[i].name == name;
    }
  }

  lemma NamesAreDistinct(s: State, events: seq<Event>, i: nat, j: nat)
    requires Reads(s, events) && i < |Names(events)| && j < |Names(events)| && i != j
    ensures Names(events)[i] != Names(events)[j]
  {
    assert s.draft.targets[i].name == Names(events)[i] && s.draft.targets[j].name == Names(events)[j];
    if i < j {
      assert s.draft.targets[i].name != s.draft.targets[j].name;
    } else {
      assert s.draft.targets[j].name != s.draft.targets[i].name;
    }
  }

  predicate ConcernsTarget(ev: Event) {
    ev.TargetDeclare? || ev.TargetPropSet? || ev.TargetAddDependency?
  }

  lemma OthersUnchanged(events: seq<Event>, ev: Event, position: nat, name: string)
    requires ConcernsTarget(ev) ==> ev.name != name
    ensures TargetOf(events + [ev], position, name) == TargetOf(events, position, name)
  {
    Snoc(events, ev);
  }

  lemma DirectoriesAfter(events: seq<Event>, ev: Event)
    ensures !ev.DirectoryEnter? ==> Entered(events + [ev]) == Entered(events) && EnteredIn(events + [ev]) == EnteredIn(events)
    ensures !ev.DirectoryEnter? && !ev.DirectoryLeave? ==> Open(events + [ev]) == Open(events)
  {
    Snoc(events, ev);
  }

  lemma TargetsAfter(events: seq<Event>, ev: Event)
    requires !ConcernsTarget(ev)
    ensures Names(events + [ev]) == Names(events) && TargetsOf(events + [ev]) == TargetsOf(events)
  {
    Snoc(events, ev);
    forall i | 0 <= i < |Names(events)| ensures TargetsOf(events + [ev])[i] == TargetsOf(events)[i] {
      OthersUnchanged(events, ev, i, Names(events)[i]);
    }
  }

  lemma StepsAfter(events: seq<Event>, ev: Event)
    requires !ev.BuildStepDeclare? && !ev.BuildStepAddOutput?
    ensures StepsOf(events + [ev]) == StepsOf(events)
  {
    Snoc(events, ev);
    StepsAreDeclarations(events);
    var declarations := StepDeclarations(events);
    forall i | 0 <= i < |declarations| ensures StepsOf(events + [ev])[i] == StepsOf(events)[i] {
      assert OutputsOf(events + [ev], declarations[i].0.stepKey) == OutputsOf(events, declarations[i].0.stepKey);
    }
  }

  lemma SemanticAfter(events: seq<Event>, ev: Event)
    ensures Validate.IsSemantic(events + [ev]) <==> Validate.IsSemantic(events) || !ev.NotSemantic?
  {
    var all := events + [ev];
    if i :| 0 <= i < |events| && !events[i].NotSemantic? {
      assert !all[i].NotSemantic?;
    }
    assert all[|events|] == ev;
    if i :| 0 <= i < |all| && !all[i].NotSemantic? {
      assert i < |events| ==> events[i] == all[i];
    }
  }

  /** The event is accepted exactly if it may follow, and then the state stands for one event
      more. */
  ghost predicate Advances(s: State, events: seq<Event>, ev: Event) {
    && (Apply(s, ev).1 <==> Follows(events, ev))
    && (Follows(events, ev) ==> Apply(s, ev).0 == StateOf(events + [ev]))
  }

  lemma PlainEventAdvances(s: State, events: seq<Event>, ev: Event)
    requires Reads(s, events)
    requires ev.NotSemantic? || ev.Unsupported? || ev.DirectoryPropertyMutate? || ev.OtherTargetEvent? || ev.OtherEvent?
    ensures Advances(s, events, ev)
  {
    DirectoriesAfter(events, ev);
    TargetsAfter(events, ev);
    StepsAfter(events, ev);
    SemanticAfter(events, ev);
    CurrentIsInnermost(events);
    if ev.OtherTargetEvent? {
      FindsMentioned(s, events, ev.name);
    }
  }

  lemma EnterDirectories(events: seq<Event>, ev: Event)
    requires ev.DirectoryEnter?
    ensures |EnteredIn(events)| == |Entered(events)| && |EnteredIn(events + [ev])| == |Entered(events + [ev])|
    ensures var n := |Entered(events)|;
      && DirectoriesOf(Entered(events + [ev]), EnteredIn(events + [ev])) ==
         DirectoriesOf(Entered(events), EnteredIn(events)) +
         [Directory(ToId(n), IdOf(Innermost(events)), ToId(n), ev.sourceDir, ev.binaryDir)]
      && StackOf(events + [ev]) == StackOf(events) + [ToId(n)]
      && Entered(events + [ev]) != []
  {
    Snoc(events, ev);
    OneParentEach(events);
    OneParentEach(events + [ev]);
  }

  lemma RootAfterEnter(events: seq<Event>)
    ensures var d := DraftOf(events);
      && |d.directories| == |Entered(events)|
      && (if IsValid(d.rootDirectoryId) then d.rootDirectoryId else ToId(|d.directories|)) == 0
  {
    OneParentEach(events);
  }

  lemma EnterAdvances(s: State, events: seq<Event>, ev: Event)
    requires Reads(s, events) && ev.DirectoryEnter?
    ensures Advances(s, events, ev)
  {
    EnterDirectories(events, ev);
    TargetsAfter(events, ev);
    StepsAfter(events, ev);
    SemanticAfter(events, ev);
    CurrentIsInnermost(events);
    RootAfterEnter(events);
  }

  lemma LeaveAdvances(s: State, events: seq<Event>, ev: Event)
    requires Reads(s, events) && ev.DirectoryLeave?
    ensures Advances(s, events, ev)
  {
    Snoc(events, ev);
    DirectoriesAfter(events, ev);
    TargetsAfter(events, ev);
    StepsAfter(events, ev);
    SemanticAfter(events, ev);
    CurrentIsInnermost(events);
    Sizes(events);
    OneParentEach(events);
    if Open(events) != [] {
      var top := Innermost(events).value;
      assert s.draft.directories[top].sourceDir == Entered(events)[top].0;
      assert s.draft.directories[top].binaryDir == Entered(events)[top].1;
      assert StackOf(events + [ev]) == StackOf(events)[..|Open(events)| - 1];
    }
  }

  lemma ChangedTarget(s: State, events: seq<Event>, ev: Event, p: nat)
    requires Reads(s, events) && ConcernsTarget(ev) && p < |Names(events)| && Names(events)[p] == ev.name
    ensures Names(events + [ev]) == Names(events)
    ensures TargetsOf(events + [ev]) == TargetsOf(events)[p := TargetOf(events + [ev], p, ev.name)]
  {
    Snoc(events, ev);
    var names, after := Names(events), TargetsOf(events + [ev]);
    assert ev.name in names;
    forall i | 0 <= i < |names| && i != p ensures after[i] == TargetsOf(events)[i] {
      NamesAreDistinct(s, events, i, p);
      OthersUnchanged(events, ev, i, names[i]);
    }
  }

  lemma NewName(events: seq<Event>, ev: Event)
    requires (ev.TargetDeclare? || ev.TargetPropSet?) && ev.name !in Names(events)
    ensures Names(events + [ev]) == Names(events) + [ev.name]
    ensures IndexOf(Names(events + [ev])) == IndexOf(Names(events)) + [NameIndexEntry(ev.name, ToId(|Names(events)|))]
  {
    Snoc(events, ev);
  }

  lemma NewTarget(events: seq<Event>, ev: Event)
    requires (ev.TargetDeclare? || ev.TargetPropSet?) && ev.name !in Names(events)
    ensures TargetsOf(events + [ev]) == TargetsOf(events) + [TargetOf(events + [ev], |Names(events)|, ev.name)]
  {
    NewName(events, ev);
    var names, before, after := Names(events), TargetsOf(events), TargetsOf(events + [ev]);
    forall i | 0 <= i < |names| ensures after[i] == before[i] {
      assert names[i] in names && Names(events + [ev])[i] == names[i];
      OthersUnchanged(events, ev, i, names[i]);
    }
    SameButLast(after, before, TargetOf(events + [ev], |names|, ev.name));
  }

  lemma SameButLast<T>(after: seq<T>, before: seq<T>, last: T)
    requires |after| == |before| + 1 && after[|before|] == last
    requires forall i :: 0 <= i < |before| ==> after[i] == before[i]
    ensures after == before + [last]
  {
  }

  /** The record of the target that an event is about, after the event. */
  lemma ConcernedTarget(events: seq<Event>, ev: Event, p: nat)
    requires Accepted(events) && ConcernsTarget(ev)
    ensures var before, after := TargetOf(events, p, ev.name), TargetOf(events + [ev], p, ev.name);
      var owner := IdOf(Innermost(events));
      && (ev.TargetDeclare? ==> after == Declared(before, owner, ev))
      && (ev.TargetAddDependency? ==> after == before.(dependencyNames := before.dependencyNames + [ev.dependency]))
      && (ev.TargetPropSet? && ev.name in Names(events) ==>
            after == if ev.setsImported.Some? then before.(imported := ev.setsImported.value) else before)
      && (ev.TargetPropSet? && ev.name !in Names(events) ==>
            after == before.(ownerDirectoryId := owner,
                             imported := if ev.setsImported.Some? then ev.setsImported.value else before.imported))
  {
    Snoc(events, ev);
    DeclaredExactlyWhen(events, ev.name);
    DeclaredExactlyWhen(events + [ev], ev.name);
  }

  lemma BlankTarget(events: seq<Event>, p: nat, name: string)
    requires Accepted(events) && name !in Names(events)
    ensures TargetOf(events, p, name) ==
            Target(ToId(p), IdOf(OwnerOf(events, name)), name, Utility, false, false, false, "", [])
  {
    UnmentionedIsBlank(events, name);
  }

  lemma RestAfterTargetEvent(events: seq<Event>, ev: Event)
    requires ConcernsTarget(ev)
    ensures Entered(events + [ev]) == Entered(events) && EnteredIn(events + [ev]) == EnteredIn(events)
    ensures StackOf(events + [ev]) == StackOf(events) && StepsOf(events + [ev]) == StepsOf(events)
    ensures Validate.IsSemantic(events + [ev])
  {
    DirectoriesAfter(events, ev);
    StepsAfter(events, ev);
    SemanticAfter(events, ev);
  }

  lemma DeclareAdvances(s: State, events: seq<Event>, ev: Event)
    requires Reads(s, events) && ev.TargetDeclare?
    ensures Advances(s, events, ev)
  {
    RestAfterTargetEvent(events, ev);
    CurrentIsInnermost(events);
    FindsMentioned(s, events, ev.name);
    DeclaredExactlyWhen(events, ev.name);
    var found := FindTargetId(s.draft.targetNameIndex, ev.name);
    if IsValid(found) {
      ChangedTarget(s, events, ev, found);
      ConcernedTarget(events, ev, found);
    } else {
      NewName(events, ev);
      NewTarget(events, ev);
      ConcernedTarget(events, ev, |Names(events)|);
      BlankTarget(events, |Names(events)|, ev.name);
    }
  }

  lemma SetPropertyAdvances(s: State, events: seq<Event>, ev: Event)
    requires Reads(s, events) && ev.TargetPropSet?
    ensures Advances(s, events, ev)
  {
    RestAfterTargetEvent(events, ev);
    CurrentIsInnermost(events);
    FindsMentioned(s, events, ev.name);
    var found := FindTargetId(s.draft.targetNameIndex, ev.name);
    if IsValid(found) {
      ChangedTarget(s, events, ev, found);
      ConcernedTarget(events, ev, found);
    } else {
      NewName(events, ev);
      NewTarget(events, ev);
      ConcernedTarget(events, ev, |Names(events)|);
      BlankTarget(events, |Names(events)|, ev.name);
    }
  }

  lemma AddDependencyAdvances(s: State, events: seq<Event>, ev: Event)
    requires Reads(s, events) && ev.TargetAddDependency?
    ensures Advances(s, events, ev)
  {
    RestAfterTargetEvent(events, ev);
    FindsMentioned(s, events, ev.name);
    var found := FindTargetId(s.draft.targetNameIndex, ev.name);
    if IsValid(found) {
      ChangedTarget(s, events, ev, found);
      ConcernedTarget(events, ev, found);
    }
  }

  lemma FindsDeclaredStep(s: State, events: seq<Event>, key: string)
    requires Reads(s, events)
    ensures FindStep(s.draft.buildSteps, key).Some? <==> DeclaresStep(events, key)
    ensures |s.draft.buildSteps| == |StepDeclarations(events)|
  {
    var declarations, steps := StepDeclarations(events), s.draft.buildSteps;
    StepsAreDeclarations(events);
    StepDeclaredExactlyWhen(events, key);
    assert forall k :: 0 <= k < |declarations| ==> steps[k].stepKey == declarations[k].0.stepKey;
    if FindStep(steps, key).Some? {
      var k := FindStep(steps, key).value;
      assert declarations[k].0.BuildStepDeclare? && declarations[k].0.stepKey == key;
    }
    if HasStep(declarations, key) {
      var k :| 0 <= k < |declarations| && declarations[k].0.BuildStepDeclare? && declarations[k].0.stepKey == key;
      assert steps[k].stepKey == key;
    }
  }

  lemma DeclareStepAdvances(s: State, events: seq<Event>, ev: Event)
    requires Reads(s, events) && ev.BuildStepDeclare?
    ensures Advances(s, events, ev)
  {
    DirectoriesAfter(events, ev);
    TargetsAfter(events, ev);
    SemanticAfter(events, ev);
    CurrentIsInnermost(events);
    FindsDeclaredStep(s, events, ev.stepKey);
    if Follows(events, ev) {
      NewStep(events, ev);
    }
  }

  lemma NewStep(events: seq<Event>, ev: Event)
    requires ev.BuildStepDeclare? && Accepted(events) && !DeclaresStep(events, ev.stepKey)
    ensures var n := |StepDeclarations(events)|;
      StepsOf(events + [ev]) == StepsOf(events) +
        [BuildStep(ToId(n), IdOf(Innermost(events)), ev.stepKey, ev.stepKind, ev.ownerTargetName, [])]
  {
    Snoc(events, ev);
    UndeclaredHasNoOutputs(events, ev.stepKey);
    var declarations := StepDeclarations(events);
    var n, before, after := |declarations|, StepsOf(events), StepsOf(events + [ev]);
    assert StepDeclarations(events + [ev]) == declarations + [(ev, Innermost(events))];
    forall i | 0 <= i < n ensures after[i] == before[i] {
      OldStep(events, ev, i);
    }
    LastStep(events, ev);
    SameButLast(after, before, StepOf(events + [ev], n, (ev, Innermost(events))));
  }

  lemma LastStep(events: seq<Event>, ev: Event)
    requires ev.BuildStepDeclare? && OutputsOf(events, ev.stepKey) == []
    ensures forall n: nat ::
      StepOf(events + [ev], n, (ev, Innermost(events))) ==
      BuildStep(ToId(n), IdOf(Innermost(events)), ev.stepKey, ev.stepKind, ev.ownerTargetName, [])
  {
    Snoc(events, ev);
    assert OutputsOf(events + [ev], ev.stepKey) == [];
  }

  lemma OldStep(events: seq<Event>, ev: Event, i: nat)
    requires ev.BuildStepDeclare? && i < |StepDeclarations(events)|
    ensures StepOf(events + [ev], i, StepDeclarations(events)[i]) == StepOf(events, i, StepDeclarations(events)[i])
  {
    Snoc(events, ev);
    StepsAreDeclarations(events);
    var key := StepDeclarations(events)[i].0.stepKey;
    assert OutputsOf(events + [ev], key) == OutputsOf(events, key) + [];
  }

  lemma AddOutputAdvances(s: State, events: seq<Event>, ev: Event)
    requires Reads(s, events) && ev.BuildStepAddOutput?
    ensures Advances(s, events, ev)
  {
    DirectoriesAfter(events, ev);
    TargetsAfter(events, ev);
    SemanticAfter(events, ev);
    FindsDeclaredStep(s, events, ev.stepKey);
    if Follows(events, ev) {
      var p := FindStep(s.draft.buildSteps, ev.stepKey).value;
      MoreOutput(s, events, ev, p);
    }
  }

  lemma MoreOutput(s: State, events: seq<Event>, ev: Event, p: nat)
    requires Reads(s, events) && ev.BuildStepAddOutput? && p < |s.draft.buildSteps| && s.draft.buildSteps[p].stepKey == ev.stepKey
    ensures var step := s.draft.buildSteps[p];
      StepsOf(events + [ev]) == s.draft.buildSteps[p := step.(outputs := step.outputs + [ev.path])]
  {
    Snoc(events, ev);
    StepsAreDeclarations(events);
    var declarations, steps := StepDeclarations(events), s.draft.buildSteps;
    forall i | 0 <= i < |declarations|
      ensures StepsOf(events + [ev])[i] == if i == p then steps[p].(outputs := steps[p].outputs + [ev.path]) else steps[i]
    {
      var key := declarations[i].0.stepKey;
      assert steps[i].stepKey == key;
      assert i < p ==> steps[i].stepKey != steps[p].stepKey;
      assert p < i ==> steps[p].stepKey != steps[i].stepKey;
      assert OutputsOf(events + [ev], key) == OutputsOf(events, key) + if key == ev.stepKey then [ev.path] else [];
    }
  }

  lemma EventAdvances(s: State, events: seq<Event>, ev: Event)
    requires Reads(s, events)
    ensures Advances(s, events, ev)
  {
    match ev
    case DirectoryEnter(_, _) => EnterAdvances(s, events, ev);
    case DirectoryLeave(_, _) => LeaveAdvances(s, events, ev);
    case TargetDeclare(_, _, _, _, _) => DeclareAdvances(s, events, ev);
    case TargetPropSet(_, _) => SetPropertyAdvances(s, events, ev);
    case TargetAddDependency(_, _) => AddDependencyAdvances(s, events, ev);
    case BuildStepDeclare(_, _, _) => DeclareStepAdvances(s, events, ev);
    case BuildStepAddOutput(_, _) => AddOutputAdvances(s, events, ev);
    case _ => PlainEventAdvances(s, events, ev);
  }

  // ---- whole streams ----

  lemma {:induction false} RunSnoc(s: State, events: seq<Event>, ev: Event)
    ensures Run(s, events + [ev]) ==
            if Run(s, events).hasFatalError then Run(s, events) else Apply(Run(s, events), ev).0
    decreases |events|
  {
    if events == [] {
      assert ([] + [ev])[0] == ev && ([] + [ev])[1..] == [];
    } else {
      assert (events + [ev])[0] == events[0] && (events + [ev])[1..] == events[1..] + [ev];
      Validate.RefusedIsFatal(s, events[0]);
      if Apply(s, events[0]).1 {
        RunSnoc(Apply(s, events[0]).0, events[1..], ev);
      }
    }
  }

  lemma {:induction false} RunReadsStream(events: seq<Event>)
    requires |events| <= INVALID
    ensures if Accepted(events) then Run(INITIAL, events) == StateOf(events) else Run(INITIAL, events).hasFatalError
    decreases |events|
  {
    if events == [] {
      assert StateOf([]).draft == INITIAL.draft;
    } else {
      var init, ev := events[..|events| - 1], events[|events| - 1];
      assert events == init + [ev];
      RunReadsStream(init);
      RunSnoc(INITIAL, init, ev);
      AcceptedSnoc(init, ev);
      if Accepted(init) {
        EveryRunIsGood(init);
        EventAdvances(StateOf(init), init, ev);
        Validate.RefusedIsFatal(StateOf(init), ev);
      }
    }
  }

  /** The builder as a whole: a stream has a draft if and only if each event may follow those
      before it and every directory is left again; and the draft is the one read off the
      stream. */
  lemma BuilderReadsTheStream(events: seq<Event>)
    requires |events| <= INVALID
    ensures Finalize(Run(INITIAL, events)) ==
            if Accepted(events) && Open(events) == [] then Some(DraftOf(events)) else None
  {
    RunReadsStream(events);
  }
}
