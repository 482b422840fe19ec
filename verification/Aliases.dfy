/** Alias targets: an alias names another target, which may itself be an alias. */
module Aliases {
  import opened Ids
  import opened Chains

  datatype AliasCell = Concrete | AliasOf(id: Id)

  type AliasTable = seq<AliasCell>

  /** An alias whose target could not be resolved points outside the table. */
  function AliasLinks(table: AliasTable): (links: Links)
    ensures |links| == |table|
  {
    seq(|table|, i requires 0 <= i < |table| =>
      match table[i]
      case Concrete => None
      case AliasOf(id) => Some(id as nat))
  }

  ghost predicate TableFits(table: AliasTable) {
    |table| <= INVALID
  }

  /** The aliases point to targets of the table or nowhere, as they do after freezing. */
  ghost predicate InRange(table: AliasTable) {
    forall i :: 0 <= i < |table| && table[i].AliasOf? ==> table[i].id < |table| || !IsValid(table[i].id)
  }

  ghost predicate IsConcrete(table: AliasTable, id: Id) {
    id < |table| && table[id].Concrete?
  }

  /** Following the aliases from id leads to the target `end`, which is no alias. */
  ghost predicate Endpoint(table: AliasTable, id: Id, end: Id) {
    exists c :: IsChainFrom(AliasLinks(table), c, id) && c[|c| - 1] == end
  }

  /** One look-up per unit of fuel: bm_resolve_alias_target_id as a recursion. */
  function ResolveFrom(table: AliasTable, id: Id, fuel: nat): Id
    decreases fuel
  {
    if fuel == 0 then INVALID
    else if !IsValid(id) || id >= |table| then INVALID
    else match table[id]
      case Concrete => id
      case AliasOf(next) => if !IsValid(next) then INVALID else ResolveFrom(table, next, fuel - 1)
  }

  function ResolveAlias(table: AliasTable, id: Id): Id {
    ResolveFrom(table, id, |table|)
  }

  lemma {:induction false} ResolveFollowsChain(table: AliasTable, c: seq<nat>, id: Id, fuel: nat)
    requires TableFits(table) && IsChainFrom(AliasLinks(table), c, id) && |c| <= fuel
    ensures ResolveFrom(table, id, fuel) == c[|c| - 1]
    decreases fuel
  {
    if |c| > 1 {
      ChainTail(AliasLinks(table), c);
      assert AliasLinks(table)[c[0]] == Some(c[1]);
      ResolveFollowsChain(table, c[1..], c[1], fuel - 1);
    }
  }

  lemma {:induction false} ResolvedHasChain(table: AliasTable, id: Id, fuel: nat)
    requires TableFits(table) && IsValid(ResolveFrom(table, id, fuel))
    ensures Endpoint(table, id, ResolveFrom(table, id, fuel))
    decreases fuel
  {
    var links := AliasLinks(table);
    match table[id] {
      case Concrete =>
        assert IsChainFrom(links, [id as nat], id);
      case AliasOf(next) =>
        ResolvedHasChain(table, next, fuel - 1);
        var c :| IsChainFrom(links, c, next) && c[|c| - 1] == ResolveFrom(table, next, fuel - 1);
        ChainPrepend(links, id, c);
        assert IsChainFrom(links, [id as nat] + c, id);
    }
  }

  /** Fuel equal to the number of targets is enough: the walk finds the endpoint whenever
      there is one, and answers INVALID exactly when there is none. */
  lemma ResolveAliasIsComplete(table: AliasTable, id: Id, end: Id)
    requires TableFits(table)
    ensures Endpoint(table, id, end) <==> IsValid(end) && ResolveAlias(table, id) == end
    ensures IsValid(ResolveAlias(table, id)) ==> IsConcrete(table, ResolveAlias(table, id))
  {
    var links := AliasLinks(table);
    if c :| IsChainFrom(links, c, id) && c[|c| - 1] == end {
      ChainFits(links, c);
      ResolveFollowsChain(table, c, id, |table|);
    }
    if IsValid(ResolveAlias(table, id)) {
      ResolvedHasChain(table, id, |table|);
    }
  }

  lemma ResolveAliasIsIdempotent(table: AliasTable, id: Id)
    requires TableFits(table)
    ensures ResolveAlias(table, ResolveAlias(table, id)) == ResolveAlias(table, id)
  {
    ResolveAliasIsComplete(table, id, ResolveAlias(table, id));
  }

  /** The loop of the query engine. */
  method ResolveAliasInQuery(table: AliasTable, id: Id) returns (resolved: Id)
    ensures resolved == ResolveAlias(table, id)
  {
    var remaining: nat := |table|;
    var current: Id := id;
    while remaining > 0
      invariant ResolveAlias(table, id) == ResolveFrom(table, current, remaining)
    {
      remaining := remaining - 1;
      if !IsValid(current) || current >= |table| {
        return INVALID;
      }
      if table[current].Concrete? {
        return current;
      }
      current := table[current].id;
      if !IsValid(current) {
        return INVALID;
      }
    }
    return INVALID;
  }

  /** The loop of the freeze step tests the id before each look-up and does not test the
      range; on tables in range it answers as the query engine does. */
  method ResolveAliasInFreeze(table: AliasTable, id: Id) returns (resolved: Id)
    requires InRange(table) && (id < |table| || !IsValid(id))
    ensures resolved == ResolveAlias(table, id)
  {
    var remaining: nat := |table|;
    var current: Id := id;
    while remaining > 0 && IsValid(current)
      invariant current < |table| || !IsValid(current)
      invariant ResolveAlias(table, id) == ResolveFrom(table, current, remaining)
    {
      remaining := remaining - 1;
      if table[current].Concrete? {
        return current;
      }
      current := table[current].id;
    }
    return INVALID;
  }

  // ---- link items ----

  datatype ItemKind = TargetRef | OtherItem

  datatype LinkItem = LinkItem(value: string, kind: ItemKind, targetName: string, targetId: Id)

  predicate NamesTarget(item: LinkItem) {
    item.kind.TargetRef? && item.targetName != ""
  }

  /** What freezing stores in the item. */
  function FrozenItem(table: AliasTable, index: seq<NameIndexEntry>, item: LinkItem): LinkItem {
    if NamesTarget(item) then item.(targetId := ResolveAlias(table, FindTargetId(index, item.targetName)))
    else item
  }

  ghost predicate IndexInRange(table: AliasTable, index: seq<NameIndexEntry>) {
    forall i :: 0 <= i < |index| ==> IsValid(index[i].id) && index[i].id < |table|
  }

  /** One of the item lists that bm_resolve_link_item_target_ids walks over and rewrites. */
  method ResolveLinkItemTargetIds(table: AliasTable, index: seq<NameIndexEntry>, items: array<LinkItem>)
    requires InRange(table) && IndexInRange(table, index)
    modifies items
    ensures forall k :: 0 <= k < items.Length ==> items[k] == FrozenItem(table, index, old(items[k]))
  {
    for i := 0 to items.Length
      invariant forall k :: 0 <= k < i ==> items[k] == FrozenItem(table, index, old(items[k]))
      invariant forall k :: i <= k < items.Length ==> items[k] == old(items[k])
    {
      var item := items[i];
      if !NamesTarget(item) {
        continue;
      }
      var targetId := FindTargetId(index, item.targetName);
      if IsValid(targetId) {
        targetId := ResolveAliasInFreeze(table, targetId);
      }
      items[i] := item.(targetId := targetId);
    }
  }

  /** How the query engine finds the target of a link item: the stored id, else the named
      target, else the target named like the item; INVALID stands for "no target". */
  function LinkItemTarget(table: AliasTable, index: seq<NameIndexEntry>, item: LinkItem): Id {
    var id :=
      if IsValid(item.targetId) then item.targetId
      else if NamesTarget(item) then FindTargetId(index, item.targetName)
      else FindTargetId(index, item.value);
    ResolveAlias(table, id)
  }

  /** After freezing, a target-reference item holds INVALID or a target that exists and is no
      alias: the endpoint of its name. Looking it up again in the query engine changes nothing. */
  lemma FrozenItemIsResolved(table: AliasTable, index: seq<NameIndexEntry>, item: LinkItem)
    requires TableFits(table) && NamesTarget(item)
    ensures var id := FrozenItem(table, index, item).targetId;
            && (IsValid(id) ==> IsConcrete(table, id))
            && LinkItemTarget(table, index, FrozenItem(table, index, item)) == id
            && forall end :: Endpoint(table, FindTargetId(index, item.targetName), end) <==> IsValid(end) && id == end
  {
    var named := FindTargetId(index, item.targetName);
    ResolveAliasIsIdempotent(table, named);
    forall end ensures Endpoint(table, named, end) <==> IsValid(end) && ResolveAlias(table, named) == end {
      ResolveAliasIsComplete(table, named, end);
    }
    ResolveAliasIsComplete(table, named, ResolveAlias(table, named));
  }

  // ---- what the definitions come to ----

  /** An endpoint is the end of a list of targets, each but the last an alias of the next, the
      last none. */
  lemma EndpointMeans(table: AliasTable, id: Id, end: Id)
    ensures Endpoint(table, id, end) <==>
            exists c: seq<Id> ::
              && |c| > 0 && c[0] == id && c[|c| - 1] == end
              && (forall k :: 0 <= k < |c| ==> c[k] < |table|)
              && (forall k :: 0 <= k < |c| - 1 ==> table[c[k]] == AliasOf(c[k + 1]))
              && table[end].Concrete?
  {
    var links := AliasLinks(table);
    if c :| IsChainFrom(links, c, id) && c[|c| - 1] == end {
      forall k | 0 <= k < |c| - 1 ensures c[k] < 0x1_0000_0000 {
        assert links[c[k]] == Some(c[k + 1]);
        if k > 0 { assert links[c[k - 1]] == Some(c[k]); }
      }
      var ids := seq<Id>(|c|, k requires 0 <= k < |c| => if k == |c| - 1 then end else c[k]);
      assert forall k :: 0 <= k < |c| ==> ids[k] == c[k];
      forall k | 0 <= k < |ids| - 1 ensures table[ids[k]] == AliasOf(ids[k + 1]) {
        assert links[c[k]] == Some(c[k + 1]);
      }
    }
    if c: seq<Id> :|
      && |c| > 0 && c[0] == id && c[|c| - 1] == end
      && (forall k :: 0 <= k < |c| ==> c[k] < |table|)
      && (forall k :: 0 <= k < |c| - 1 ==> table[c[k]] == AliasOf(c[k + 1]))
      && table[end].Concrete?
    {
      var chain := seq<nat>(|c|, k requires 0 <= k < |c| => c[k] as nat);
      forall k | 0 <= k < |chain| - 1 ensures links[chain[k]] == Some(chain[k + 1]) {
        assert table[c[k]] == AliasOf(c[k + 1]);
      }
      assert IsChainFrom(links, chain, id);
    }
  }

  /** Freezing changes the id of items that name a target, and nothing else of any item. */
  lemma FreezingKeepsTheRest(table: AliasTable, index: seq<NameIndexEntry>, item: LinkItem)
    ensures var frozen := FrozenItem(table, index, item);
      && frozen.value == item.value && frozen.kind == item.kind && frozen.targetName == item.targetName
      && (item.kind.OtherItem? || item.targetName == "" ==> frozen == item)
  {
  }

  /** A stored id comes first: the item leads to the endpoint of that id. */
  lemma FoundByStoredId(table: AliasTable, index: seq<NameIndexEntry>, item: LinkItem, end: Id)
    requires TableFits(table) && IsValid(item.targetId)
    ensures Endpoint(table, item.targetId, end) <==> IsValid(end) && LinkItemTarget(table, index, item) == end
  {
    ResolveAliasIsComplete(table, item.targetId, end);
  }

  /** A target name comes second: the item leads to the endpoint of the entry of that name. */
  lemma FoundByTargetName(table: AliasTable, index: seq<NameIndexEntry>, item: LinkItem, i: nat, end: Id)
    requires TableFits(table) && item.targetId == INVALID && item.kind.TargetRef? && item.targetName != ""
    requires i < |index| && index[i].name == item.targetName
    requires forall k :: 0 <= k < i ==> index[k].name != item.targetName
    ensures Endpoint(table, index[i].id, end) <==> IsValid(end) && LinkItemTarget(table, index, item) == end
  {
    FirstEntryWins(index, item.targetName, i);
    ResolveAliasIsComplete(table, index[i].id, end);
  }

  /** Every other item is looked up by its value: it leads to the endpoint of the entry of that
      name. */
  lemma FoundByValue(table: AliasTable, index: seq<NameIndexEntry>, item: LinkItem, i: nat, end: Id)
    requires TableFits(table) && item.targetId == INVALID && (item.kind.OtherItem? || item.targetName == "")
    requires i < |index| && index[i].name == item.value
    requires forall k :: 0 <= k < i ==> index[k].name != item.value
    ensures Endpoint(table, index[i].id, end) <==> IsValid(end) && LinkItemTarget(table, index, item) == end
  {
    FirstEntryWins(index, item.value, i);
    ResolveAliasIsComplete(table, index[i].id, end);
  }

  /** An item whose name has no entry leads nowhere. */
  lemma NotFound(table: AliasTable, index: seq<NameIndexEntry>, item: LinkItem)
    requires item.targetId == INVALID
    requires var name := if item.kind.TargetRef? && item.targetName != "" then item.targetName else item.value;
             forall k :: 0 <= k < |index| ==> index[k].name != name
    ensures LinkItemTarget(table, index, item) == INVALID
  {
  }
}

/** The directory records of a draft: the parent chain of each must end. */
module DirectoryChains {
  import opened Ids
  import opened Chains

  /** parents[i] is the parent id of directory i, INVALID for a root. */
  function ParentLinks(parents: seq<Id>): (links: Links)
    ensures |links| == |parents|
  {
    seq(|parents|, i requires 0 <= i < |parents| => if IsValid(parents[i]) then Some(parents[i] as nat) else None)
  }

  ghost predicate ParentChainEnds(parents: seq<Id>, parent: Id) {
    !IsValid(parent) || Ends(ParentLinks(parents), parent)
  }

  /** The step counter rejects only chains that do not end. */
  method ValidateDirectoryChain(parents: seq<Id>, parent: Id) returns (ok: bool)
    ensures ok <==> ParentChainEnds(parents, parent)
  {
    ghost var links := ParentLinks(parents);
    var current: Id := parent;
    var steps := 0;
    forall c | IsChain(links, c) ensures |c| <= |parents| {
      ChainFits(links, c);
    }
    while IsValid(current)
      invariant ParentChainEnds(parents, parent) <==> ParentChainEnds(parents, current)
      invariant forall c :: IsValid(current) && IsChainFrom(links, c, current) ==> steps + |c| <= |parents|
      invariant steps <= |parents|
      decreases |parents| - steps
    {
      if current >= |parents| {
        assert !Ends(links, current);
        return false;
      }
      ghost var here: Id := current;
      current := parents[current];
      FollowParent(parents, here, steps);
      steps := steps + 1;
      if steps > |parents| {
        return false;
      }
    }
    return true;
  }

  lemma FollowParent(parents: seq<Id>, here: Id, steps: nat)
    requires here < |parents|
    requires forall c :: IsChainFrom(ParentLinks(parents), c, here) ==> steps + |c| <= |parents|
    ensures Ends(ParentLinks(parents), here) <==> ParentChainEnds(parents, parents[here])
    ensures forall c :: IsChainFrom(ParentLinks(parents), c, parents[here]) && IsValid(parents[here]) ==>
              steps + 1 + |c| <= |parents|
    ensures !IsValid(parents[here]) ==> steps + 1 <= |parents|
  {
    var links := ParentLinks(parents);
    if !IsValid(parents[here]) {
      assert IsChainFrom(links, [here as nat], here);
    } else {
      forall c | IsChainFrom(links, c, parents[here]) ensures IsChainFrom(links, [here as nat] + c, here) {
        ChainPrepend(links, here, c);
      }
      forall c | IsChainFrom(links, c, here) ensures IsChainFrom(links, c[1..], parents[here]) {
        ChainTail(links, c);
      }
    }
  }
}
