/** The caches of a query session, seen through the keys of the questions only: what is answered
    is what was computed first under the key. */
module Caches {
  import opened Ids

  /** One evaluated item: its text and everything else it carries. */
  datatype ItemView = ItemView(value: string, detail: nat)

  /** A question: whether it asks for the values of the items only, which of the item caches it
      goes to, its key, the items a direct query gives, and whether there is memory left for
      computing items and for copying values. */
  datatype Question = Question(
    forValues: bool,
    links: bool,
    key: string,
    direct: Option<seq<ItemView>>,
    memory: bool,
    copies: bool)

  datatype Answer = ItemsAnswer(items: Option<seq<ItemView>>) | ValuesAnswer(values: Option<seq<string>>)

  datatype CacheState = CacheState(
    items: map<string, seq<ItemView>>,
    linkItems: map<string, seq<ItemView>>,
    values: map<string, seq<string>>)

  const EMPTY: CacheState := CacheState(map[], map[], map[])

  function Values(items: seq<ItemView>): seq<string> {
    seq(|items|, i requires 0 <= i < |items| => items[i].value)
  }

  /** The texts of the items, one for each and in their order. */
  lemma ValuesInTurn(items: seq<ItemView>, k: nat)
    requires k < |items|
    ensures |Values(items)| == |items| && Values(items)[k] == items[k].value
  {
  }

  function ValuesOf(items: Option<seq<ItemView>>): Option<seq<string>> {
    if items.None? then None else Some(Values(items.value))
  }

  /** What can be computed where there is memory for it. */
  function Given<V>(memory: bool, answer: Option<V>): Option<V> {
    if memory then answer else None
  }

  // ---- the operations ----

  /** An entry that is there is the answer; otherwise what is computed is, and is put there. */
  function LookUp<V>(cache: map<string, V>, key: string, computed: Option<V>): (map<string, V>, Option<V>) {
    if key in cache then (cache, Some(cache[key]))
    else if computed.Some? then (cache[key := computed.value], computed)
    else (cache, None)
  }

  function AskItems(c: CacheState, q: Question): (CacheState, Option<seq<ItemView>>) {
    if q.links then
      var (linkItems, answer) := LookUp(c.linkItems, q.key, Given(q.memory, q.direct));
      (c.(linkItems := linkItems), answer)
    else
      var (items, answer) := LookUp(c.items, q.key, Given(q.memory, q.direct));
      (c.(items := items), answer)
  }

  /** The item caches are asked only where the value cache has no entry. */
  function AskValues(c: CacheState, q: Question): (CacheState, Option<seq<string>>) {
    if q.key in c.values then (c, Some(c.values[q.key]))
    else
      var (c', items) := AskItems(c, q);
      var (values, answer) := LookUp(c.values, q.key, Given(q.copies, ValuesOf(items)));
      (c'.(values := values), answer)
  }

  function Respond(c: CacheState, q: Question): (CacheState, Answer) {
    if q.forValues then
      var (c', values) := AskValues(c, q);
      (c', ValuesAnswer(values))
    else
      var (c', items) := AskItems(c, q);
      (c', ItemsAnswer(items))
  }

  /** The caches of a new session after some questions. */
  function After(qs: seq<Question>): CacheState {
    if qs == [] then EMPTY else Respond(After(qs[..|qs| - 1]), qs[|qs| - 1]).0
  }

  /** What a new session answers to the last of some questions. */
  function Response(qs: seq<Question>): Answer
    requires qs != []
  {
    Respond(After(qs[..|qs| - 1]), qs[|qs| - 1]).1
  }

  /** The answers of a new session, one after the other. */
  function Responses(qs: seq<Question>): (answers: seq<Answer>)
    ensures |answers| == |qs|
  {
    if qs == [] then [] else Responses(qs[..|qs| - 1]) + [Response(qs)]
  }

  lemma {:induction false} ResponsesAt(qs: seq<Question>, i: nat)
    requires i < |qs|
    ensures Responses(qs)[i] == Response(qs[..i + 1])
    decreases |qs|
  {
    if i < |qs| - 1 {
      ResponsesAt(qs[..|qs| - 1], i);
      assert qs[..|qs| - 1][..i + 1] == qs[..i + 1];
    } else {
      assert qs[..i + 1] == qs;
    }
  }

  lemma OneMoreQuestion(qs: seq<Question>, i: nat)
    requires i < |qs|
    ensures Respond(After(qs[..i]), qs[i]).0 == After(qs[..i + 1])
    ensures Responses(qs[..i]) + [Respond(After(qs[..i]), qs[i]).1] == Responses(qs[..i + 1])
  {
    assert qs[..i + 1][..i] == qs[..i];
  }

  // ---- what is answered ----

  /** The items that were computed first under the key, read off the questions without a cache. */
  function FirstItems(qs: seq<Question>, key: string, links: bool): Option<seq<ItemView>> {
    if qs == [] then None
    else
      var before, last := FirstItems(qs[..|qs| - 1], key, links), qs[|qs| - 1];
      if before.Some? || last.key != key || last.links != links then before else Given(last.memory, last.direct)
  }

  /** The values that were copied first under the key. */
  function FirstValues(qs: seq<Question>, key: string): Option<seq<string>> {
    if qs == [] then None
    else
      var before, last := FirstValues(qs[..|qs| - 1], key), qs[|qs| - 1];
      if before.Some? || last.key != key || !last.forValues then before
      else Given(last.copies, ValuesOf(FirstItems(qs, key, last.links)))
  }

  /** The first answer under the key of the last question, that question included. */
  function FirstAnswer(qs: seq<Question>): Answer
    requires qs != []
  {
    var last := qs[|qs| - 1];
    if last.forValues then ValuesAnswer(FirstValues(qs, last.key)) else ItemsAnswer(FirstItems(qs, last.key, last.links))
  }

  /** Questions for values that have the same key go to the same item cache. */
  ghost predicate KeysTellCaches(qs: seq<Question>) {
    forall i, j :: 0 <= i < |qs| && 0 <= j < |qs| && qs[i].forValues && qs[j].forValues && qs[i].key == qs[j].key ==>
      qs[i].links == qs[j].links
  }

  function Entry<V>(cache: map<string, V>, key: string): Option<V> {
    if key in cache then Some(cache[key]) else None
  }

  ghost predicate HoldsAt(qs: seq<Question>, c: CacheState, key: string) {
    && Entry(c.items, key) == FirstItems(qs, key, false)
    && Entry(c.linkItems, key) == FirstItems(qs, key, true)
    && Entry(c.values, key) == FirstValues(qs, key)
  }

  lemma LookUpEntry<V>(cache: map<string, V>, key: string, computed: Option<V>, k: string)
    ensures var (cache', answer) := LookUp(cache, key, computed);
      && answer == (if key in cache then Entry(cache, key) else computed)
      && Entry(cache', k) == if k == key then answer else Entry(cache, k)
  {
  }

  /** Where there are values under a key there are items under it. */
  lemma {:induction false} ValuesHaveItems(qs: seq<Question>, key: string, links: bool)
    requires FirstValues(qs, key).Some?
    requires forall i :: 0 <= i < |qs| && qs[i].forValues && qs[i].key == key ==> qs[i].links == links
    ensures FirstItems(qs, key, links).Some?
    decreases |qs|
  {
    var init := qs[..|qs| - 1];
    if FirstValues(init, key).Some? {
      ValuesHaveItems(init, key, links);
    }
  }

  /** The entries under a key after one question more. */
  lemma RespondHolds(qs: seq<Question>, c: CacheState, k: string)
    requires qs != [] && KeysTellCaches(qs)
    requires HoldsAt(qs[..|qs| - 1], c, k) && HoldsAt(qs[..|qs| - 1], c, qs[|qs| - 1].key)
    ensures HoldsAt(qs, Respond(c, qs[|qs| - 1]).0, k)
  {
    var init, q := qs[..|qs| - 1], qs[|qs| - 1];
    var cache, computed := if q.links then c.linkItems else c.items, Given(q.memory, q.direct);
    LookUpEntry(cache, q.key, computed, k);
    if q.forValues && q.key in c.values {
      ValuesHaveItems(init, q.key, q.links);
    } else if q.forValues {
      LookUpEntry(c.values, q.key, Given(q.copies, ValuesOf(LookUp(cache, q.key, computed).1)), k);
    }
  }

  lemma {:induction false} CachesHoldFirst(qs: seq<Question>, key: string)
    requires KeysTellCaches(qs)
    ensures HoldsAt(qs, After(qs), key)
    decreases |qs|
  {
    if qs != [] {
      var init := qs[..|qs| - 1];
      CachesHoldFirst(init, key);
      CachesHoldFirst(init, qs[|qs| - 1].key);
      RespondHolds(qs, After(init), key);
    }
  }

  /** Every answer of every session, in full: what was computed first under the key. */
  lemma ResponseIsFirst(qs: seq<Question>)
    requires qs != [] && KeysTellCaches(qs)
    ensures Response(qs) == FirstAnswer(qs)
  {
    var init, q := qs[..|qs| - 1], qs[|qs| - 1];
    CachesHoldFirst(init, q.key);
  }

  // ---- when the answer is the direct one ----

  function DirectAnswer(q: Question): Answer {
    if q.forValues then ValuesAnswer(ValuesOf(q.direct)) else ItemsAnswer(q.direct)
  }

  predicate HasMemory(q: Question) {
    q.memory && (q.forValues ==> q.copies)
  }

  /** The answer is right: the direct one, or none where there is no memory. */
  predicate IsRight(q: Question, answer: Answer) {
    || answer == DirectAnswer(q)
    || (!HasMemory(q) && answer == if q.forValues then ValuesAnswer(None) else ItemsAnswer(None))
  }

  /** All questions under the key of q mean the same as q. */
  ghost predicate Unanimous(qs: seq<Question>, q: Question) {
    forall i :: 0 <= i < |qs| && qs[i].key == q.key ==>
      && (qs[i].links == q.links ==> qs[i].direct == q.direct)
      && (qs[i].forValues && q.forValues ==> qs[i].links == q.links)
  }

  lemma {:induction false} FirstItemsAreDirect(qs: seq<Question>, q: Question)
    requires Unanimous(qs, q)
    ensures FirstItems(qs, q.key, q.links).Some? ==> FirstItems(qs, q.key, q.links) == q.direct
    decreases |qs|
  {
    if qs != [] {
      FirstItemsAreDirect(qs[..|qs| - 1], q);
    }
  }

  lemma {:induction false} FirstValuesAreDirect(qs: seq<Question>, q: Question)
    requires Unanimous(qs, q) && q.forValues
    ensures FirstValues(qs, q.key).Some? ==> FirstValues(qs, q.key) == ValuesOf(q.direct)
    decreases |qs|
  {
    if qs != [] {
      FirstValuesAreDirect(qs[..|qs| - 1], q);
      FirstItemsAreDirect(qs, q);
    }
  }

  lemma FirstAnswerIsRight(qs: seq<Question>)
    requires qs != [] && Unanimous(qs, qs[|qs| - 1])
    ensures IsRight(qs[|qs| - 1], FirstAnswer(qs))
  {
    FirstItemsAreDirect(qs, qs[|qs| - 1]);
    if qs[|qs| - 1].forValues {
      FirstValuesAreDirect(qs, qs[|qs| - 1]);
    }
  }

  /** Without memory nothing is stored, and what is answered was stored before. */
  lemma NothingStoredWithoutMemory(c: CacheState, q: Question)
    requires !q.memory
    ensures var (c', answer) := Respond(c, q);
      && c'.items == c.items && c'.linkItems == c.linkItems
      && (!q.copies ==> c' == c)
      && (answer.ItemsAnswer? && answer.items.Some? ==> q.key in c.items || q.key in c.linkItems)
  {
  }
}
