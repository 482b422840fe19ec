/** Which language a target links as: inferred over everything it links to. The search
    marks only the targets of its current path, yet its answer is about reachability. */
module LinkLanguage {
  import opened Ids
  import opened Graphs
  import opened Aliases

  // ---- classification of language names ----

  predicate IsSpace(c: char) {
    c == ' ' || '\t' <= c <= '\r'
  }

  function TrimLeft(s: string): string {
    if s != "" && IsSpace(s[0]) then TrimLeft(s[1..]) else s
  }

  function TrimRight(s: string): string {
    if s != "" && IsSpace(s[|s| - 1]) then TrimRight(s[..|s| - 1]) else s
  }

  function Lower(s: string): (t: string)
    ensures |t| == |s|
  {
    seq(|s|, i requires 0 <= i < |s| =>
      if 'A' <= s[i] <= 'Z' then s[i] - 'A' + 'a' else s[i])
  }

  predicate IsCxx(language: string) {
    Lower(TrimRight(TrimLeft(language))) == "cxx"
  }

  predicate IsC(language: string) {
    Lower(TrimRight(TrimLeft(language))) == "c"
  }

  // ---- the model ----

  /** What one target contributes in the fixed context of a query: the languages of its
      sources, or those an imported target declares, and its link items. None where the
      query for them fails. */
  datatype LinkTarget = LinkTarget(
    imported: bool,
    importedLanguages: Option<seq<string>>,
    sourceLanguages: seq<string>,
    linkItems: Option<seq<LinkItem>>)

  datatype LinkModel = LinkModel(aliases: AliasTable, index: seq<NameIndexEntry>, targets: seq<LinkTarget>)
  {
    ghost predicate Valid() {
      |aliases| == |targets| && TableFits(aliases)
    }

    function OwnLanguages(u: nat): seq<string>
      requires u < |targets|
    {
      if !targets[u].imported then targets[u].sourceLanguages
      else if targets[u].importedLanguages.Some? then targets[u].importedLanguages.value
      else []
    }

    ghost function CxxTargets(): set<nat> {
      set u: nat | u < |targets| && exists k :: 0 <= k < |OwnLanguages(u)| && IsCxx(OwnLanguages(u)[k])
    }

    ghost function CTargets(): set<nat> {
      set u: nat | u < |targets| && exists k :: 0 <= k < |OwnLanguages(u)| && IsC(OwnLanguages(u)[k])
    }

    /** The targets whose own query fails. */
    ghost function FailingTargets(): set<nat> {
      set u: nat | u < |targets| &&
        if targets[u].imported then targets[u].importedLanguages.None? else targets[u].linkItems.None?
    }
  }

  /** The targets that link items lead to, aliases resolved; INVALID for items that name none. */
  function ItemTargets(m: LinkModel, items: seq<LinkItem>): (ids: seq<Id>)
    ensures |ids| == |items|
    ensures forall k :: 0 <= k < |items| ==> ids[k] == LinkItemTarget(m.aliases, m.index, items[k])
  {
    seq<Id>(|items|, k requires 0 <= k < |items| => LinkItemTarget(m.aliases, m.index, items[k]))
  }

  /** Imported targets have no successors. */
  function LinkGraph(m: LinkModel): (g: Graph)
    ensures |g| == |m.targets|
  {
    seq<seq<nat>>(|m.targets|, u requires 0 <= u < |m.targets| =>
      if m.targets[u].imported || m.targets[u].linkItems.None? then []
      else ValidIds(ItemTargets(m, m.targets[u].linkItems.value)))
  }

  datatype Language = NoLanguage | C | Cxx

  /** What an answer for target u means, when the targets `blocked` are being visited. */
  ghost predicate Answers(m: LinkModel, u: nat, blocked: set<nat>, ok: bool, language: Language) {
    var g := LinkGraph(m);
    && (ok ==> (language.Cxx? <==> Hits(g, u, blocked, m.CxxTargets())))
    && (ok && !language.Cxx? ==> (language.C? <==> Hits(g, u, blocked, m.CTargets())))
    && (ok && !language.Cxx? ==> !Hits(g, u, blocked, m.FailingTargets()))
    && (!ok ==> Hits(g, u, blocked, m.FailingTargets()))
  }

  ghost predicate LeadsTo(m: LinkModel, item: LinkItem, blocked: set<nat>, goals: set<nat>) {
    var v := LinkItemTarget(m.aliases, m.index, item);
    v != INVALID && Hits(LinkGraph(m), v, blocked, goals)
  }

  /** The first `count` link items of u have been searched without finding C++ or failing. */
  ghost predicate Searched(m: LinkModel, u: nat, blocked: set<nat>, count: nat, sawC: bool)
    requires u < |m.targets| && m.targets[u].linkItems.Some? && count <= |m.targets[u].linkItems.value|
  {
    var items := m.targets[u].linkItems.value;
    && (forall k :: 0 <= k < count ==>
          !LeadsTo(m, items[k], blocked, m.CxxTargets()) && !LeadsTo(m, items[k], blocked, m.FailingTargets()))
    && (sawC <==> u in m.CTargets() || exists k :: 0 <= k < count && LeadsTo(m, items[k], blocked, m.CTargets()))
  }

  /** Where the search of u stops early, one witness decides. */
  lemma FoundThrough(m: LinkModel, u: nat, k: nat, blocked: set<nat>, goals: set<nat>)
    requires u < |m.targets| && !m.targets[u].imported && m.targets[u].linkItems.Some? && u !in blocked
    requires k < |m.targets[u].linkItems.value|
    requires LeadsTo(m, m.targets[u].linkItems.value[k], blocked + {u}, goals)
    ensures Hits(LinkGraph(m), u, blocked, goals)
  {
    var items := m.targets[u].linkItems.value;
    var v := LinkItemTarget(m.aliases, m.index, items[k]);
    InValidIds(ItemTargets(m, items), v);
    assert ItemTargets(m, items)[k] == v;
    assert Edge(LinkGraph(m), u, v);
    HitsUnfold(LinkGraph(m), u, blocked, goals);
  }

  lemma SearchedNext(m: LinkModel, u: nat, blocked: set<nat>, count: nat, sawC: bool, language: Language)
    requires u < |m.targets| && m.targets[u].linkItems.Some? && count < |m.targets[u].linkItems.value|
    requires Searched(m, u, blocked, count, sawC)
    requires var v := LinkItemTarget(m.aliases, m.index, m.targets[u].linkItems.value[count]);
             if v == INVALID then language.NoLanguage? else !language.Cxx? && Answers(m, v, blocked, true, language)
    ensures Searched(m, u, blocked, count + 1, sawC || language.C?)
  {
    var item := m.targets[u].linkItems.value[count];
    assert LeadsTo(m, item, blocked, m.CTargets()) <==> language.C?;
  }

  lemma SearchedAll(m: LinkModel, u: nat, blocked: set<nat>, sawC: bool)
    requires u < |m.targets| && !m.targets[u].imported && m.targets[u].linkItems.Some? && u !in blocked
    requires Searched(m, u, blocked + {u}, |m.targets[u].linkItems.value|, sawC)
    requires u !in m.CxxTargets()
    ensures Answers(m, u, blocked, true, if sawC then C else NoLanguage)
  {
    var g, items := LinkGraph(m), m.targets[u].linkItems.value;
    forall w: nat | Edge(g, u, w)
      ensures exists k :: 0 <= k < |items| && LinkItemTarget(m.aliases, m.index, items[k]) == w && w != INVALID
      ensures !Hits(g, w, blocked + {u}, m.CxxTargets()) && !Hits(g, w, blocked + {u}, m.FailingTargets())
    {
      InValidIds(ItemTargets(m, items), w);
      var k :| 0 <= k < |items| && ItemTargets(m, items)[k] == w && w != INVALID;
      assert !LeadsTo(m, items[k], blocked + {u}, m.CxxTargets());
    }
    HitsUnfold(g, u, blocked, m.CxxTargets());
    HitsUnfold(g, u, blocked, m.FailingTargets());
    HitsUnfold(g, u, blocked, m.CTargets());
    if k :| 0 <= k < |items| && LeadsTo(m, items[k], blocked + {u}, m.CTargets()) {
      FoundThrough(m, u, k, blocked, m.CTargets());
    }
  }

  /** Looks through the names in order and stops at the first C++. */
  method Classify(languages: seq<string>) returns (sawCxx: bool, sawC: bool)
    ensures sawCxx <==> exists k :: 0 <= k < |languages| && IsCxx(languages[k])
    ensures !sawCxx ==> (sawC <==> exists k :: 0 <= k < |languages| && IsC(languages[k]))
  {
    sawC := false;
    for i := 0 to |languages|
      invariant forall k :: 0 <= k < i ==> !IsCxx(languages[k])
      invariant sawC <==> exists k :: 0 <= k < i && IsC(languages[k])
    {
      if IsCxx(languages[i]) {
        return true, sawC;
      }
      if IsC(languages[i]) {
        sawC := true;
      }
    }
    return false, sawC;
  }

  method Infer(m: LinkModel, id: Id, visiting: array<bool>) returns (ok: bool, language: Language)
    requires m.Valid() && visiting.Length == |m.targets|
    modifies visiting
    ensures visiting[..] == old(visiting[..])
    ensures !IsValid(ResolveAlias(m.aliases, id)) ==> !ok
    ensures IsValid(ResolveAlias(m.aliases, id)) ==>
              Answers(m, ResolveAlias(m.aliases, id), Marked(old(visiting[..])), ok, language)
    decreases Unmarked(visiting[..]), 0
  {
    var u := ResolveAliasInQuery(m.aliases, id);
    ResolveAliasIsComplete(m.aliases, id, u);
    if !IsValid(u) {
      return false, NoLanguage;
    }
    ghost var g, blocked := LinkGraph(m), Marked(visiting[..]);
    if visiting[u] {
      HitsNothingFromBlocked(g, u, blocked, m.CxxTargets());
      HitsNothingFromBlocked(g, u, blocked, m.CTargets());
      HitsNothingFromBlocked(g, u, blocked, m.FailingTargets());
      return true, NoLanguage;
    }
    ghost var entry := visiting[..];
    visiting[u] := true;
    assert Unmarked(visiting[..]) < Unmarked(entry) by {
      assert (u as nat) in Unmarked(entry) && (u as nat) !in Unmarked(visiting[..]);
    }
    ok, language := InferMarked(m, u, visiting, blocked);
    visiting[u] := false;
    assert visiting[..] == entry;
  }

  /** The rest of the visit of u, which is now marked. */
  method InferMarked(m: LinkModel, u: Id, visiting: array<bool>, ghost blocked: set<nat>)
    returns (ok: bool, language: Language)
    requires m.Valid() && visiting.Length == |m.targets| && u < |m.targets| && visiting[u] && u !in blocked
    requires Marked(visiting[..]) == blocked + {u as nat}
    modifies visiting
    ensures visiting[..] == old(visiting[..])
    ensures Answers(m, u, blocked, ok, language)
    decreases Unmarked(visiting[..]), 2
  {
    ghost var g := LinkGraph(m);
    HitsUnfold(g, u, blocked, m.CxxTargets());
    HitsUnfold(g, u, blocked, m.FailingTargets());
    var target := m.targets[u];
    if target.imported {
      HitsUnfold(g, u, blocked, m.CTargets());
      if target.importedLanguages.None? {
        return false, NoLanguage;
      }
      var sawCxx, sawC := Classify(target.importedLanguages.value);
      assert target.importedLanguages.value == m.OwnLanguages(u);
      assert forall w: nat :: !Edge(g, u, w);
      return true, if sawCxx then Cxx else if sawC then C else NoLanguage;
    }
    var sawCxx, sawC := Classify(target.sourceLanguages);
    assert target.sourceLanguages == m.OwnLanguages(u);
    if sawCxx {
      return true, Cxx;
    }
    if target.linkItems.None? {
      return false, NoLanguage;
    }
    ok, language := InferThroughItems(m, u, target.linkItems.value, visiting, blocked, sawC);
  }

  method InferThroughItems(m: LinkModel, u: Id, items: seq<LinkItem>, visiting: array<bool>,
                           ghost blocked: set<nat>, sawOwnC: bool)
    returns (ok: bool, language: Language)
    requires m.Valid() && visiting.Length == |m.targets| && u < |m.targets| && visiting[u] && (u as nat) !in blocked
    requires !m.targets[u].imported && m.targets[u].linkItems == Some(items)
    requires Marked(visiting[..]) == blocked + {u as nat}
    requires (u as nat) !in m.CxxTargets() && (sawOwnC <==> (u as nat) in m.CTargets())
    modifies visiting
    ensures visiting[..] == old(visiting[..])
    ensures Answers(m, u, blocked, ok, language)
    decreases Unmarked(visiting[..]), 1
  {
    ghost var entry := visiting[..];
    var sawC := sawOwnC;
    for i := 0 to |items|
      invariant visiting[..] == entry
      invariant Searched(m, u, blocked + {u as nat}, i, sawC)
    {
      var depId := LinkItemTarget(m.aliases, m.index, items[i]);
      if !IsValid(depId) {
        SearchedNext(m, u, blocked + {u as nat}, i, sawC, NoLanguage);
        continue;
      }
      ResolveAliasIsIdempotent(m.aliases, LinkItemStart(m, items[i]));
      var depLanguage;
      ok, depLanguage := Infer(m, depId, visiting);
      if !ok {
        FoundThrough(m, u, i, blocked, m.FailingTargets());
        return false, NoLanguage;
      }
      if depLanguage.Cxx? {
        FoundThrough(m, u, i, blocked, m.CxxTargets());
        return true, Cxx;
      }
      SearchedNext(m, u, blocked + {u as nat}, i, sawC, depLanguage);
      if depLanguage.C? {
        sawC := true;
      }
    }
    SearchedAll(m, u, blocked, sawC);
    return true, if sawC then C else NoLanguage;
  }

  ghost function LinkItemStart(m: LinkModel, item: LinkItem): (id: Id)
    ensures ResolveAlias(m.aliases, id) == LinkItemTarget(m.aliases, m.index, item)
  {
    if IsValid(item.targetId) then item.targetId
    else if NamesTarget(item) then FindTargetId(m.index, item.targetName)
    else FindTargetId(m.index, item.value)
  }

  ghost predicate ReachesSome(m: LinkModel, u: nat, goals: set<nat>) {
    exists v :: v in goals && Reaches(LinkGraph(m), u, v)
  }

  lemma HitsWithoutBlocks(m: LinkModel, u: nat, goals: set<nat>)
    ensures Hits(LinkGraph(m), u, {}, goals) <==> ReachesSome(m, u, goals)
  {
    forall v ensures ReachesAvoiding(LinkGraph(m), u, v, {}) <==> Reaches(LinkGraph(m), u, v) {
      AvoidingNothing(LinkGraph(m), u, v);
    }
  }

  /** Marking the current path only, on graphs with cycles too, the answer is C++ if and only
      if some reachable target contributes C++, else C if and only if some reachable one
      contributes C; it fails only if a reachable target fails. */
  method TargetEffectiveLinkLanguage(m: LinkModel, id: Id) returns (ok: bool, language: Language)
    requires m.Valid()
    ensures ok ==> IsValid(ResolveAlias(m.aliases, id))
    ensures var u := ResolveAlias(m.aliases, id);
      && (ok ==> (language.Cxx? <==> ReachesSome(m, u, m.CxxTargets())))
      && (ok && !language.Cxx? ==> (language.C? <==> ReachesSome(m, u, m.CTargets())))
      && (ok && !language.Cxx? ==> !ReachesSome(m, u, m.FailingTargets()))
      && (!ok && IsValid(u) ==> ReachesSome(m, u, m.FailingTargets()))
  {
    var visiting := new bool[|m.targets|](_ => false);
    ghost var u := ResolveAlias(m.aliases, id);
    assert Marked(visiting[..]) == {};
    HitsWithoutBlocks(m, u, m.CxxTargets());
    HitsWithoutBlocks(m, u, m.CTargets());
    HitsWithoutBlocks(m, u, m.FailingTargets());
    ok, language := Infer(m, id, visiting);
  }

  // ---- what the definitions come to ----

  /** A target leads to the targets its link items find, unless it is imported. */
  lemma LinkEdges(m: LinkModel, u: nat, v: nat)
    requires u < |m.targets|
    ensures Edge(LinkGraph(m), u, v) <==>
            && !m.targets[u].imported && m.targets[u].linkItems.Some? && v != INVALID
            && exists k :: 0 <= k < |m.targets[u].linkItems.value| &&
                 LinkItemTarget(m.aliases, m.index, m.targets[u].linkItems.value[k]) == v
  {
    if m.targets[u].linkItems.Some? {
      var items := m.targets[u].linkItems.value;
      InValidIds(ItemTargets(m, items), v);
      if k :| 0 <= k < |items| && LinkItemTarget(m.aliases, m.index, items[k]) == v {
        assert ItemTargets(m, items)[k] == v;
      }
    }
  }

  /** What a target contributes: the languages it is imported with, else those of its sources. */
  lemma ContributesLanguage(m: LinkModel, u: nat)
    requires u < |m.targets|
    ensures var t := m.targets[u];
      && (t.imported && t.importedLanguages.Some? ==>
            && (u in m.CxxTargets() <==> exists s :: s in t.importedLanguages.value && IsCxx(s))
            && (u in m.CTargets() <==> exists s :: s in t.importedLanguages.value && IsC(s)))
      && (!t.imported ==>
            && (u in m.CxxTargets() <==> exists s :: s in t.sourceLanguages && IsCxx(s))
            && (u in m.CTargets() <==> exists s :: s in t.sourceLanguages && IsC(s)))
      && (u in m.FailingTargets() <==> if t.imported then t.importedLanguages.None? else t.linkItems.None?)
  {
    var own := m.OwnLanguages(u);
    if s :| s in own && IsCxx(s) {
      var k :| 0 <= k < |own| && own[k] == s;
    }
    if s :| s in own && IsC(s) {
      var k :| 0 <= k < |own| && own[k] == s;
    }
    if k :| 0 <= k < |own| && IsCxx(own[k]) {
      assert own[k] in own;
    }
    if k :| 0 <= k < |own| && IsC(own[k]) {
      assert own[k] in own;
    }
  }

  lemma WhiteSpace(c: char)
    ensures IsSpace(c) <==> c in {' ', '\t', '\n', 11 as char, 12 as char, '\r'}
  {
  }

  ghost predicate AllSpace(s: string) {
    forall i :: 0 <= i < |s| ==> IsSpace(s[i])
  }

  /** The word is surrounded by white space only. */
  ghost predicate IsWord(s: string, left: string, word: string, right: string) {
    s == left + word + right && AllSpace(left) && AllSpace(right)
  }

  lemma {:induction false} TrimLeftSplits(s: string) returns (left: string)
    ensures s == left + TrimLeft(s) && AllSpace(left)
  {
    left := "";
    if s != "" && IsSpace(s[0]) {
      var rest := TrimLeftSplits(s[1..]);
      left := [s[0]] + rest;
      assert s == [s[0]] + s[1..];
    }
  }

  lemma {:induction false} TrimRightSplits(s: string) returns (right: string)
    ensures s == TrimRight(s) + right && AllSpace(right)
  {
    right := "";
    if s != "" && IsSpace(s[|s| - 1]) {
      var rest := TrimRightSplits(s[..|s| - 1]);
      right := rest + [s[|s| - 1]];
      assert s == s[..|s| - 1] + [s[|s| - 1]];
    }
  }

  lemma {:induction false} TrimLeftOfWord(left: string, rest: string)
    requires AllSpace(left) && rest != "" && !IsSpace(rest[0])
    ensures TrimLeft(left + rest) == rest
  {
    if left == "" {
      assert left + rest == rest;
    } else {
      assert (left + rest)[1..] == left[1..] + rest;
      TrimLeftOfWord(left[1..], rest);
    }
  }

  lemma {:induction false} TrimRightOfWord(rest: string, right: string)
    requires AllSpace(right) && rest != "" && !IsSpace(rest[|rest| - 1])
    ensures TrimRight(rest + right) == rest
  {
    if right == "" {
      assert rest + right == rest;
    } else {
      assert (rest + right)[..|rest + right| - 1] == rest + right[..|right| - 1];
      TrimRightOfWord(rest, right[..|right| - 1]);
    }
  }

  lemma TrimIsWord(s: string, word: string)
    requires word != "" && !IsSpace(word[0]) && !IsSpace(word[|word| - 1])
    ensures TrimRight(TrimLeft(s)) == word <==> exists left, right :: IsWord(s, left, word, right)
  {
    if TrimRight(TrimLeft(s)) == word {
      var left := TrimLeftSplits(s);
      var right := TrimRightSplits(TrimLeft(s));
      assert IsWord(s, left, word, right) by {
        assert left + (word + right) == left + word + right;
      }
    }
    if left, right :| IsWord(s, left, word, right) {
      assert s == left + (word + right);
      TrimLeftOfWord(left, word + right);
      TrimRightOfWord(word, right);
    }
  }

  ghost predicate SpellsCxx(word: string) {
    |word| == 3 && word[0] in {'c', 'C'} && word[1] in {'x', 'X'} && word[2] in {'x', 'X'}
  }

  ghost predicate SpellsC(word: string) {
    |word| == 1 && word[0] in {'c', 'C'}
  }

  lemma LowerSpells(word: string)
    ensures Lower(word) == "cxx" <==> SpellsCxx(word)
    ensures Lower(word) == "c" <==> SpellsC(word)
  {
    var lower := Lower(word);
    if lower == "cxx" {
      assert lower[0] == 'c' && lower[1] == 'x' && lower[2] == 'x';
    }
    if lower == "c" {
      assert lower[0] == 'c';
    }
    if SpellsCxx(word) {
      assert lower == ['c', 'x', 'x'];
    }
    if SpellsC(word) {
      assert lower == ['c'];
    }
  }

  /** C++ is the word CXX, in letters of either case and with white space around it. */
  lemma CxxIsAWord(s: string)
    ensures IsCxx(s) <==> exists left, word, right :: IsWord(s, left, word, right) && SpellsCxx(word)
  {
    var trimmed := TrimRight(TrimLeft(s));
    LowerSpells(trimmed);
    if IsCxx(s) {
      TrimIsWord(s, trimmed);
    }
    if left, word, right :| IsWord(s, left, word, right) && SpellsCxx(word) {
      TrimIsWord(s, word);
    }
  }

  /** C is the word C, likewise. */
  lemma CIsAWord(s: string)
    ensures IsC(s) <==> exists left, word, right :: IsWord(s, left, word, right) && SpellsC(word)
  {
    var trimmed := TrimRight(TrimLeft(s));
    LowerSpells(trimmed);
    if IsC(s) {
      TrimIsWord(s, trimmed);
    }
    if left, word, right :| IsWord(s, left, word, right) && SpellsC(word) {
      TrimIsWord(s, word);
    }
  }
}
