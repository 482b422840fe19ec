/** The query session: caches in front of the effective-item queries of one frozen model. */
module Session {
  import opened Ids
  import opened SessionKeys
  import opened Caches

  /** The queries of the model, which the session does not look into; None where one fails. */
  datatype DirectQueries = DirectQueries(
    items: (Id, EffectiveKind, EvalContext) -> Option<seq<ItemView>>,
    linkItems: (Id, EvalContext) -> Option<seq<ItemView>>)

  // ---- requests ----

  function DefaultContext(current: Id, mode: UsageMode): EvalContext {
    EvalContext("", "", "", "", current, mode, true, true, false)
  }

  function UsageOf(kind: EffectiveKind): UsageMode {
    if kind.LinkLibraries? || kind.LinkOptions? || kind.LinkDirectories? then UsageLink else UsageCompile
  }

  function NormalizeContext(id: Id, mode: UsageMode, ctx: Option<EvalContext>): EvalContext {
    match ctx
    case None => DefaultContext(id, mode)
    case Some(c) => if IsValid(c.currentTargetId) then c else c.(currentTargetId := id)
  }

  function RequestFor(id: Id, kind: EffectiveKind, ctx: Option<EvalContext>): Request {
    Request(id, kind, NormalizeContext(id, UsageOf(kind), ctx))
  }

  lemma NormalizingTwice(id: Id, kind: EffectiveKind, ctx: Option<EvalContext>)
    ensures var r := RequestFor(id, kind, ctx); RequestFor(id, kind, Some(r.ctx)) == r
  {
  }

  // ---- calls ----

  datatype Call =
    | ItemsCall(id: Id, ctx: Option<EvalContext>, kind: EffectiveKind)
    | LinkItemsCall(id: Id, ctx: Option<EvalContext>)
    | ValuesCall(id: Id, ctx: Option<EvalContext>, kind: EffectiveKind)

  /** A call, and whether there is memory left for the computation of items and, in a call for
      values, for the copy of their texts. */
  datatype Ask = Ask(call: Call, memory: bool, copies: bool)

  function RequestOf(call: Call): Request {
    match call
    case ItemsCall(id, ctx, kind) => RequestFor(id, kind, ctx)
    case LinkItemsCall(id, ctx) => RequestFor(id, LinkLibraries, ctx)
    case ValuesCall(id, ctx, kind) => RequestFor(id, kind, ctx)
  }

  /** The key of the call is no other request's. */
  predicate IsSafe(call: Call) {
    HasOwnKey(RequestOf(call))
  }

  /** The values of link libraries come from the link items, all others from the items. */
  predicate UsesLinkItems(call: Call) {
    call.LinkItemsCall? || (call.ValuesCall? && call.kind.LinkLibraries?)
  }

  function DirectItems(direct: DirectQueries, r: Request, links: bool): Option<seq<ItemView>> {
    if links then direct.linkItems(r.id, r.ctx) else direct.items(r.id, r.kind, r.ctx)
  }

  function QuestionFor(direct: DirectQueries, forValues: bool, links: bool, r: Request, memory: bool, copies: bool): Question {
    Question(forValues, links, EffectiveKey(r), DirectItems(direct, r, links), memory, copies)
  }

  function QuestionOf(direct: DirectQueries, ask: Ask): Question {
    QuestionFor(direct, ask.call.ValuesCall?, UsesLinkItems(ask.call), RequestOf(ask.call), ask.memory, ask.copies)
  }

  function QuestionsOf(direct: DirectQueries, asks: seq<Ask>): (qs: seq<Question>)
    ensures |qs| == |asks|
  {
    seq(|asks|, i requires 0 <= i < |asks| => QuestionOf(direct, asks[i]))
  }

  /** What a new session answers to the last of some calls. */
  function SessionAnswer(direct: DirectQueries, asks: seq<Ask>): Answer
    requires asks != []
  {
    Response(QuestionsOf(direct, asks))
  }

  /** The answer to a call is the direct one, or none where there is no memory. */
  predicate IsRightFor(direct: DirectQueries, ask: Ask, answer: Answer) {
    IsRight(QuestionOf(direct, ask), answer)
  }

  // ---- what the direct answers are ----

  predicate Unlinked(kind: EffectiveKind) {
    kind in {IncludeDirectories, CompileDefinitions, CompileOptions, CompileFeatures}
  }

  /** The context a query is made in: the caller's, with the asked target where it names no
      current one; without a caller's, an empty one for the target, for linking where the kind
      is one of linking, and active in builds but not in installations. */
  lemma ContextOfCall(id: Id, kind: EffectiveKind, ctx: Option<EvalContext>)
    ensures var r := RequestFor(id, kind, ctx);
      && r.id == id && r.kind == kind
      && (ctx.Some? && ctx.value.currentTargetId != INVALID ==> r.ctx == ctx.value)
      && (ctx.Some? && ctx.value.currentTargetId == INVALID ==> r.ctx == ctx.value.(currentTargetId := id))
      && (ctx.None? ==> r.ctx == EvalContext("", "", "", "", id, if Unlinked(kind) then UsageCompile else UsageLink, true, true, false))
      && (Unlinked(kind) <==> kind !in {LinkLibraries, LinkOptions, LinkDirectories})
  {
  }

  /** The answer of the direct query in the context of the call: the items, or the text of each
      of them, in order; of the link items for link libraries, of the items else. */
  ghost predicate IsDirect(direct: DirectQueries, call: Call, answer: Answer) {
    match call
    case ItemsCall(id, ctx, kind) => answer == ItemsAnswer(direct.items(id, kind, RequestFor(id, kind, ctx).ctx))
    case LinkItemsCall(id, ctx) =>
      answer == ItemsAnswer(direct.linkItems(id, RequestFor(id, LinkLibraries, ctx).ctx))
    case ValuesCall(id, ctx, kind) =>
      var context := RequestFor(id, kind, ctx).ctx;
      var items := if kind == LinkLibraries then direct.linkItems(id, context) else direct.items(id, kind, context);
      answer.ValuesAnswer? && AreTextsOf(items, answer.values)
  }

  ghost predicate AreTextsOf(items: Option<seq<ItemView>>, texts: Option<seq<string>>) {
    && (texts.Some? <==> items.Some?)
    && (items.Some? ==>
          && |texts.value| == |items.value|
          && forall k :: 0 <= k < |items.value| ==> texts.value[k] == items.value[k].value)
  }

  lemma RightIsDirect(direct: DirectQueries, ask: Ask, answer: Answer)
    requires IsRightFor(direct, ask, answer) && ask.memory && ask.copies
    ensures IsDirect(direct, ask.call, answer)
  {
  }

  // ---- what a session answers ----

  lemma CallsTellCaches(direct: DirectQueries, asks: seq<Ask>)
    ensures KeysTellCaches(QuestionsOf(direct, asks))
  {
    var qs := QuestionsOf(direct, asks);
    forall i, j | 0 <= i < |qs| && 0 <= j < |qs| && qs[i].forValues && qs[j].forValues && qs[i].key == qs[j].key
      ensures qs[i].links == qs[j].links
    {
      SameKeySameNumbers(RequestOf(asks[i].call), RequestOf(asks[j].call));
    }
  }

  /** Every answer of every session, for calls with shared keys too: what was computed first
      under the key of the call. */
  lemma SessionAnswersTheFirst(direct: DirectQueries, asks: seq<Ask>)
    requires asks != []
    ensures SessionAnswer(direct, asks) == FirstAnswer(QuestionsOf(direct, asks))
  {
    CallsTellCaches(direct, asks);
    ResponseIsFirst(QuestionsOf(direct, asks));
  }

  lemma SafeCallIsAlone(direct: DirectQueries, asks: seq<Ask>, call: Call, ask: Ask)
    requires ask.call == call && IsSafe(call)
    ensures Unanimous(QuestionsOf(direct, asks), QuestionOf(direct, ask))
  {
    var qs, q := QuestionsOf(direct, asks), QuestionOf(direct, ask);
    forall i | 0 <= i < |qs| && qs[i].key == q.key
      ensures qs[i].links == q.links ==> qs[i].direct == q.direct
      ensures qs[i].forValues && q.forValues ==> qs[i].links == q.links
    {
      OwnKeyIsUnique(RequestOf(call), RequestOf(asks[i].call));
    }
  }

  /** A call with a key of its own is answered right, whatever was asked before, be it with
      shared keys or without. */
  lemma SafeCallIsAnsweredRight(direct: DirectQueries, asks: seq<Ask>)
    requires asks != [] && IsSafe(asks[|asks| - 1].call)
    ensures IsRightFor(direct, asks[|asks| - 1], SessionAnswer(direct, asks))
  {
    var last := asks[|asks| - 1];
    SessionAnswersTheFirst(direct, asks);
    SafeCallIsAlone(direct, asks, last.call, last);
    FirstAnswerIsRight(QuestionsOf(direct, asks));
  }

  // ---- other calls can be answered wrong ----

  /** The same call under another install prefix. */
  function WithPrefix(call: Call, prefix: string): Call {
    var ctx := Some(RequestOf(call).ctx.(installPrefix := prefix));
    match call
    case ItemsCall(id, _, kind) => ItemsCall(id, ctx, kind)
    case LinkItemsCall(id, _) => LinkItemsCall(id, ctx)
    case ValuesCall(id, _, kind) => ValuesCall(id, ctx, kind)
  }

  /** A model that has an item only under the given install prefix. */
  function PrefixQueries(prefix: string): DirectQueries {
    DirectQueries(
      (id: Id, kind: EffectiveKind, ctx: EvalContext) => Some(if ctx.installPrefix == prefix then [ItemView("", 0)] else []),
      (id: Id, ctx: EvalContext) => Some(if ctx.installPrefix == prefix then [ItemView("", 0)] else []))
  }

  lemma SecondGetsTheFirst(p: Question, q: Question)
    requires p.key == q.key && p.links == q.links && p.forValues == q.forValues && p.direct.Some?
    requires p.memory && p.copies
    ensures Response([p, q]) == DirectAnswer(p)
  {
    assert [p, q][..1] == [p] && [p][..0] == [];
    assert After([p]) == Respond(EMPTY, p).0;
  }

  lemma PrefixQueriesDiffer(call: Call, prefix: string)
    requires prefix != RequestOf(call).ctx.installPrefix
    ensures var direct := PrefixQueries(RequestOf(call).ctx.installPrefix);
      var p, q := QuestionOf(direct, Ask(WithPrefix(call, prefix), true, true)), QuestionOf(direct, Ask(call, true, true));
      && p.direct == Some([]) && q.direct == Some([ItemView("", 0)])
      && p.links == q.links && p.forValues == q.forValues && p.memory && p.copies
  {
    assert RequestOf(WithPrefix(call, prefix)).ctx.installPrefix == prefix;
  }

  /** A call that shares its key is answered wrong by some session: one that was asked the
      other request before, of a model in which the two differ. */
  lemma SharedCallCanGoWrong(call: Call) returns (direct: DirectQueries, earlier: Call)
    requires !IsSafe(call)
    ensures !IsRightFor(direct, Ask(call, true, true), SessionAnswer(direct, [Ask(earlier, true, true), Ask(call, true, true)]))
  {
    var r := RequestOf(call);
    var s := SharedKey(r);
    direct, earlier := PrefixQueries(r.ctx.installPrefix), WithPrefix(call, s.ctx.installPrefix);
    assert RequestOf(earlier) == s;
    PrefixQueriesDiffer(call, s.ctx.installPrefix);
    var p, q := QuestionOf(direct, Ask(earlier, true, true)), QuestionOf(direct, Ask(call, true, true));
    SecondGetsTheFirst(p, q);
    assert QuestionsOf(direct, [Ask(earlier, true, true), Ask(call, true, true)]) == [p, q];
    OtherAnswerIsWrong(p, q);
  }

  lemma OtherAnswerIsWrong(p: Question, q: Question)
    requires p.forValues == q.forValues && q.memory && q.copies
    requires p.direct == Some([]) && q.direct == Some([ItemView("", 0)])
    ensures !IsRight(q, DirectAnswer(p))
  {
    assert |Values([ItemView("", 0)])| == 1 && |Values([])| == 0;
  }

  /** The exact condition: a call is answered right by every session, whatever the model and
      whatever was asked before, if and only if its key is no other request's. */
  lemma AnsweredRightExactlyWhen(call: Call)
    ensures IsSafe(call) <==>
            forall direct: DirectQueries, asks: seq<Ask>, memory: bool, copies: bool ::
              IsRightFor(direct, Ask(call, memory, copies), SessionAnswer(direct, asks + [Ask(call, memory, copies)]))
  {
    if IsSafe(call) {
      forall direct: DirectQueries, asks: seq<Ask>, memory: bool, copies: bool
        ensures IsRightFor(direct, Ask(call, memory, copies), SessionAnswer(direct, asks + [Ask(call, memory, copies)]))
      {
        SafeCallIsAnsweredRight(direct, asks + [Ask(call, memory, copies)]);
      }
    } else {
      var direct, earlier := SharedCallCanGoWrong(call);
      assert [Ask(earlier, true, true), Ask(call, true, true)] == [Ask(earlier, true, true)] + [Ask(call, true, true)];
    }
  }

  // ---- the session object ----

  class QuerySession {
    const direct: DirectQueries
    var itemCache: map<string, seq<ItemView>>
    var linkItemCache: map<string, seq<ItemView>>
    var valueCache: map<string, seq<string>>
    var itemHits: nat
    var itemMisses: nat
    var valueHits: nat
    var valueMisses: nat

    ghost function Abstract(): CacheState
      reads this
    {
      CacheState(itemCache, linkItemCache, valueCache)
    }

    constructor (direct: DirectQueries)
      ensures this.direct == direct && Abstract() == EMPTY
      ensures itemHits == itemMisses == valueHits == valueMisses == 0
    {
      this.direct := direct;
      itemCache, linkItemCache, valueCache := map[], map[], map[];
      itemHits, itemMisses, valueHits, valueMisses := 0, 0, 0, 0;
    }

    /** memory says whether there is memory left for the computation and its copy. */
    method EffectiveItems(id: Id, ctx: Option<EvalContext>, kind: EffectiveKind, countStats: bool, memory: bool)
      returns (result: Option<seq<ItemView>>)
      modifies this`itemCache, this`itemHits, this`itemMisses
      ensures var q := QuestionFor(direct, false, false, RequestFor(id, kind, ctx), memory, true);
        && (Abstract(), result) == AskItems(old(Abstract()), q)
        && var hit := q.key in old(itemCache);
           itemHits == old(itemHits) + (if countStats && hit then 1 else 0) &&
           itemMisses == old(itemMisses) + (if countStats && !hit then 1 else 0)
    {
      var normalized := NormalizeContext(id, UsageOf(kind), ctx);
      var key := BuildEffectiveKey(Request(id, kind, normalized));
      if key in itemCache {
        if countStats {
          itemHits := itemHits + 1;
        }
        return Some(itemCache[key]);
      }
      if countStats {
        itemMisses := itemMisses + 1;
      }
      var computed := direct.items(id, kind, normalized);
      if computed.None? || !memory {
        return None;
      }
      itemCache := itemCache[key := computed.value];
      return Some(itemCache[key]);
    }

    method EffectiveLinkItems(id: Id, ctx: Option<EvalContext>, countStats: bool, memory: bool)
      returns (result: Option<seq<ItemView>>)
      modifies this`linkItemCache, this`itemHits, this`itemMisses
      ensures var q := QuestionFor(direct, false, true, RequestFor(id, LinkLibraries, ctx), memory, true);
        && (Abstract(), result) == AskItems(old(Abstract()), q)
        && var hit := q.key in old(linkItemCache);
           itemHits == old(itemHits) + (if countStats && hit then 1 else 0) &&
           itemMisses == old(itemMisses) + (if countStats && !hit then 1 else 0)
    {
      var normalized := NormalizeContext(id, UsageLink, ctx);
      var key := BuildEffectiveKey(Request(id, LinkLibraries, normalized));
      if key in linkItemCache {
        if countStats {
          itemHits := itemHits + 1;
        }
        return Some(linkItemCache[key]);
      }
      if countStats {
        itemMisses := itemMisses + 1;
      }
      var computed := direct.linkItems(id, normalized);
      if computed.None? || !memory {
        return None;
      }
      linkItemCache := linkItemCache[key := computed.value];
      return Some(linkItemCache[key]);
    }

    /** copies says whether there is memory left for the copy of the values. */
    method EffectiveValues(id: Id, ctx: Option<EvalContext>, kind: EffectiveKind, countStats: bool,
                           memory: bool, copies: bool)
      returns (result: Option<seq<string>>)
      modifies this
      ensures var q := QuestionFor(direct, true, kind.LinkLibraries?, RequestFor(id, kind, ctx), memory, copies);
        && (Abstract(), result) == AskValues(old(Abstract()), q)
        && var hit := q.key in old(valueCache);
           valueHits == old(valueHits) + (if countStats && hit then 1 else 0) &&
           valueMisses == old(valueMisses) + (if countStats && !hit then 1 else 0)
      ensures itemHits == old(itemHits) && itemMisses == old(itemMisses)
    {
      var normalized := NormalizeContext(id, UsageOf(kind), ctx);
      var key := BuildEffectiveKey(Request(id, kind, normalized));
      if key in valueCache {
        if countStats {
          valueHits := valueHits + 1;
        }
        return Some(valueCache[key]);
      }
      if countStats {
        valueMisses := valueMisses + 1;
      }
      NormalizingTwice(id, kind, ctx);
      var items := ItemsForValues(id, normalized, kind, memory);
      if items.None? || !copies {
        return None;
      }
      valueCache := valueCache[key := Values(items.value)];
      return Some(valueCache[key]);
    }

    /** The question to one of the item caches, which is not counted. */
    method ItemsForValues(id: Id, normalized: EvalContext, kind: EffectiveKind, memory: bool)
      returns (items: Option<seq<ItemView>>)
      requires RequestFor(id, kind, Some(normalized)).ctx == normalized
      modifies this`itemCache, this`linkItemCache, this`itemHits, this`itemMisses
      ensures (Abstract(), items) ==
              AskItems(old(Abstract()),
                       QuestionFor(direct, true, kind.LinkLibraries?, Request(id, kind, normalized), memory, true))
      ensures itemHits == old(itemHits) && itemMisses == old(itemMisses)
    {
      if kind.LinkLibraries? {
        items := EffectiveLinkItems(id, Some(normalized), false, memory);
      } else {
        items := EffectiveItems(id, Some(normalized), kind, false, memory);
      }
    }

    method AnswerCall(ask: Ask) returns (answer: Answer)
      modifies this
      ensures (Abstract(), answer) == Respond(old(Abstract()), QuestionOf(direct, ask))
      ensures itemHits + itemMisses + valueHits + valueMisses ==
              old(itemHits + itemMisses + valueHits + valueMisses) + 1
    {
      match ask.call
      case ItemsCall(id, ctx, kind) =>
        var items := EffectiveItems(id, ctx, kind, true, ask.memory);
        answer := ItemsAnswer(items);
      case LinkItemsCall(id, ctx) =>
        var items := EffectiveLinkItems(id, ctx, true, ask.memory);
        answer := ItemsAnswer(items);
      case ValuesCall(id, ctx, kind) =>
        var values := EffectiveValues(id, ctx, kind, true, ask.memory, ask.copies);
        answer := ValuesAnswer(values);
    }
  }

  // ---- whole runs ----

  lemma AnswersInFull(direct: DirectQueries, asks: seq<Ask>, i: nat)
    requires i < |asks|
    ensures var answer := Responses(QuestionsOf(direct, asks))[i];
      && answer == FirstAnswer(QuestionsOf(direct, asks[..i + 1]))
      && (IsSafe(asks[i].call) ==> IsRightFor(direct, asks[i], answer))
  {
    ResponsesAt(QuestionsOf(direct, asks), i);
    assert QuestionsOf(direct, asks[..i + 1]) == QuestionsOf(direct, asks)[..i + 1];
    SessionAnswersTheFirst(direct, asks[..i + 1]);
    if IsSafe(asks[i].call) {
      SafeCallIsAnsweredRight(direct, asks[..i + 1]);
    }
  }

  /** Any sequence of calls on a new session: each answer is what was computed first under its
      key, the direct answer for every call that shares its key with no other request; and
      each call is one hit or one miss. */
  method RunCalls(direct: DirectQueries, asks: seq<Ask>)
    returns (answers: seq<Answer>, hits: nat, misses: nat)
    ensures |answers| == |asks|
    ensures forall i :: 0 <= i < |asks| ==> answers[i] == FirstAnswer(QuestionsOf(direct, asks[..i + 1]))
    ensures forall i :: 0 <= i < |asks| && IsSafe(asks[i].call) ==> IsRightFor(direct, asks[i], answers[i])
    ensures forall i :: 0 <= i < |asks| && IsSafe(asks[i].call) && asks[i].memory && asks[i].copies ==>
              IsDirect(direct, asks[i].call, answers[i])
    ensures hits + misses == |asks|
  {
    var session := new QuerySession(direct);
    answers := [];
    ghost var qs := QuestionsOf(direct, asks);
    for i := 0 to |asks|
      invariant session.direct == direct && session.Abstract() == After(qs[..i])
      invariant answers == Responses(qs[..i])
      invariant session.itemHits + session.itemMisses + session.valueHits + session.valueMisses == i
    {
      OneMoreQuestion(qs, i);
      var answer := session.AnswerCall(asks[i]);
      answers := answers + [answer];
    }
    assert qs[..|asks|] == qs;
    forall i | 0 <= i < |asks|
      ensures answers[i] == FirstAnswer(QuestionsOf(direct, asks[..i + 1]))
      ensures IsSafe(asks[i].call) ==> IsRightFor(direct, asks[i], answers[i])
      ensures IsSafe(asks[i].call) && asks[i].memory && asks[i].copies ==> IsDirect(direct, asks[i].call, answers[i])
    {
      AnswersInFull(direct, asks, i);
      if IsSafe(asks[i].call) && asks[i].memory && asks[i].copies {
        RightIsDirect(direct, asks[i], answers[i]);
      }
    }
    hits := session.itemHits + session.valueHits;
    misses := session.itemMisses + session.valueMisses;
  }
}
