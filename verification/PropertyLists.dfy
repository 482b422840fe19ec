/** The item lists of a target. One list holds the items of several properties side by side:
    those of each visibility, with and without the SYSTEM flag. */
module PropertyLists {
  import opened Records

  datatype Item = Item(value: string, visibility: Visibility, system: bool, before: bool)

  datatype MutateOp = Set | PrependList | AppendList | AppendString

  datatype Bucket = Bucket(visibility: Visibility, system: bool)

  function BucketOf(item: Item): Bucket {
    Bucket(item.visibility, item.system)
  }

  /** The items of one bucket, in order. */
  function Only(items: seq<Item>, b: Bucket): seq<Item> {
    if items == [] then []
    else (if BucketOf(items[0]) == b then [items[0]] else []) + Only(items[1..], b)
  }

  /** The items of all other buckets, in order. */
  function Without(items: seq<Item>, b: Bucket): seq<Item> {
    if items == [] then []
    else (if BucketOf(items[0]) == b then [] else [items[0]]) + Without(items[1..], b)
  }

  predicate AllIn(items: seq<Item>, b: Bucket) {
    forall i :: 0 <= i < |items| ==> BucketOf(items[i]) == b
  }

  /** What the operations mean for a list that holds one property only. */
  function Plain(list: seq<Item>, items: seq<Item>, op: MutateOp): seq<Item> {
    match op
    case Set => items
    case PrependList => items + list
    case AppendList => list + items
    case AppendString => list + items
  }

  /** What the code does to the shared list. */
  function Promoted(list: seq<Item>, items: seq<Item>, op: MutateOp, b: Bucket): seq<Item> {
    if op.Set? then Without(list, b) + items else Plain(list, items, op)
  }

  lemma {:induction false} OnlyAppend(x: seq<Item>, y: seq<Item>, b: Bucket)
    ensures Only(x + y, b) == Only(x, b) + Only(y, b)
  {
    if x == [] {
      assert x + y == y;
    } else {
      var head := if BucketOf(x[0]) == b then [x[0]] else [];
      calc {
        Only(x + y, b);
        { assert (x + y)[0] == x[0] && (x + y)[1..] == x[1..] + y; }
        head + Only(x[1..] + y, b);
        { OnlyAppend(x[1..], y, b); }
        head + (Only(x[1..], b) + Only(y, b));
        Only(x, b) + Only(y, b);
      }
    }
  }

  lemma {:induction false} OnlyOfOneBucket(items: seq<Item>, own: Bucket, b: Bucket)
    requires AllIn(items, own)
    ensures Only(items, b) == if own == b then items else []
  {
    if items != [] {
      OnlyOfOneBucket(items[1..], own, b);
      assert items == [items[0]] + items[1..];
    }
  }

  lemma {:induction false} OnlyOfOthers(items: seq<Item>, own: Bucket, b: Bucket)
    ensures Only(Without(items, own), b) == if own == b then [] else Only(items, b)
  {
    if items != [] {
      var kept, rest := if BucketOf(items[0]) == own then [] else [items[0]], Without(items[1..], own);
      OnlyOfOthers(items[1..], own, b);
      OnlyAppend(kept, rest, b);
      assert kept != [] ==> kept[1..] == [];
    }
  }

  lemma {:induction false} WithoutAppend(x: seq<Item>, y: seq<Item>, own: Bucket)
    ensures Without(x + y, own) == Without(x, own) + Without(y, own)
  {
    if x == [] {
      assert x + y == y;
    } else {
      assert (x + y)[0] == x[0] && (x + y)[1..] == x[1..] + y;
      WithoutAppend(x[1..], y, own);
    }
  }

  lemma {:induction false} NothingWithout(items: seq<Item>, own: Bucket)
    requires AllIn(items, own)
    ensures Without(items, own) == []
  {
    if items != [] {
      NothingWithout(items[1..], own);
    }
  }

  lemma {:induction false} WithoutTwice(items: seq<Item>, own: Bucket)
    ensures Without(Without(items, own), own) == Without(items, own)
  {
    if items != [] {
      var kept, rest := if BucketOf(items[0]) == own then [] else [items[0]], Without(items[1..], own);
      WithoutTwice(items[1..], own);
      WithoutAppend(kept, rest, own);
      assert kept != [] ==> kept[1..] == [];
    }
  }

  /** One mutation of the shared list is that mutation of the list of its bucket, and leaves
      all other items alone, the order among them included. */
  lemma MutationStaysInItsBucket(list: seq<Item>, items: seq<Item>, op: MutateOp, own: Bucket, b: Bucket)
    requires AllIn(items, own)
    ensures Only(Promoted(list, items, op, own), b) ==
            if own == b then Plain(Only(list, b), items, op) else Only(list, b)
    ensures Without(Promoted(list, items, op, own), own) == Without(list, own)
  {
    OnlyOfOneBucket(items, own, b);
    NothingWithout(items, own);
    match op
    case Set =>
      OnlyAppend(Without(list, own), items, b);
      OnlyOfOthers(list, own, b);
      WithoutAppend(Without(list, own), items, own);
      WithoutTwice(list, own);
    case PrependList =>
      OnlyAppend(items, list, b);
      WithoutAppend(items, list, own);
    case AppendList =>
      OnlyAppend(list, items, b);
      WithoutAppend(list, items, own);
    case AppendString =>
      OnlyAppend(list, items, b);
      WithoutAppend(list, items, own);
  }

  datatype Mutation = Mutation(op: MutateOp, bucket: Bucket, items: seq<Item>)

  function RunShared(list: seq<Item>, mutations: seq<Mutation>): seq<Item>
    decreases |mutations|
  {
    if mutations == [] then list
    else
      var m := mutations[0];
      RunShared(Promoted(list, m.items, m.op, m.bucket), mutations[1..])
  }

  /** The mutations of bucket b alone, on a list of its own. */
  function RunOwn(list: seq<Item>, mutations: seq<Mutation>, b: Bucket): seq<Item>
    decreases |mutations|
  {
    if mutations == [] then list
    else
      var m := mutations[0];
      RunOwn(if m.bucket == b then Plain(list, m.items, m.op) else list, mutations[1..], b)
  }

  /** The shared list simulates independent lists: over any run, what it holds in a bucket is
      what the mutations of that bucket build by themselves. */
  lemma {:induction false} SharedListSimulatesOwnLists(list: seq<Item>, mutations: seq<Mutation>, b: Bucket)
    requires forall i :: 0 <= i < |mutations| ==> AllIn(mutations[i].items, mutations[i].bucket)
    ensures Only(RunShared(list, mutations), b) == RunOwn(Only(list, b), mutations, b)
    decreases |mutations|
  {
    if mutations != [] {
      var m := mutations[0];
      MutationStaysInItsBucket(list, m.items, m.op, m.bucket, b);
      SharedListSimulatesOwnLists(Promoted(list, m.items, m.op, m.bucket), mutations[1..], b);
    }
  }

  class ItemList {
    var items: seq<Item>

    constructor ()
      ensures items == []
    {
      items := [];
    }

    /** bm_apply_item_mutation */
    method ApplyMutation(added: seq<Item>, op: MutateOp)
      modifies this
      ensures items == Plain(old(items), added, op)
    {
      match op
      case Set =>
        var replaced: seq<Item> := [];
        for i := 0 to |added|
          invariant replaced == added[..i]
        {
          replaced := replaced + [added[i]];
        }
        items := replaced;
      case PrependList =>
        var merged: seq<Item> := [];
        for i := 0 to |added|
          invariant merged == added[..i]
        {
          merged := merged + [added[i]];
        }
        for i := 0 to |items|
          invariant merged == added + items[..i]
        {
          merged := merged + [items[i]];
        }
        items := merged;
      case AppendList =>
        AppendAll(added);
      case AppendString =>
        AppendAll(added);
    }

    method AppendAll(added: seq<Item>)
      modifies this
      ensures items == old(items) + added
    {
      for i := 0 to |added|
        invariant items == old(items) + added[..i]
      {
        items := items + [added[i]];
      }
      assert added[..|added|] == added;
    }

    /** bm_target_apply_promoted_item_mutation */
    method ApplyPromotedMutation(added: seq<Item>, op: MutateOp, bucket: Bucket)
      modifies this
      ensures items == Promoted(old(items), added, op, bucket)
    {
      if !op.Set? {
        ApplyMutation(added, op);
        return;
      }
      var merged: seq<Item> := [];
      for i := 0 to |items|
        invariant items == old(items)
        invariant merged + Without(items[i..], bucket) == Without(items, bucket)
      {
        assert items[i..][0] == items[i] && items[i..][1..] == items[i + 1..];
        if BucketOf(items[i]) == bucket {
          continue;
        }
        merged := merged + [items[i]];
      }
      items := merged;
      AppendAll(added);
    }
  }

  /** Every bucket of the list that a run of promoted mutations leaves behind. */
  method RunMutations(mutations: seq<Mutation>) returns (list: seq<Item>)
    requires forall i :: 0 <= i < |mutations| ==> AllIn(mutations[i].items, mutations[i].bucket)
    ensures forall b: Bucket :: Only(list, b) == RunOwn([], mutations, b)
  {
    var target := new ItemList();
    for i := 0 to |mutations|
      invariant RunShared(target.items, mutations[i..]) == RunShared([], mutations)
    {
      assert mutations[i..][0] == mutations[i] && mutations[i..][1..] == mutations[i + 1..];
      target.ApplyPromotedMutation(mutations[i].items, mutations[i].op, mutations[i].bucket);
    }
    list := target.items;
    forall b: Bucket ensures Only(list, b) == RunOwn([], mutations, b) {
      SharedListSimulatesOwnLists([], mutations, b);
    }
  }

  // ---- what the definitions come to ----

  /** A bucket holds the items of its visibility that agree in the SYSTEM flag. */
  lemma OneItem(x: Item, b: Bucket)
    ensures Only([x], b) == if x.visibility == b.visibility && x.system == b.system then [x] else []
    ensures Without([x], b) == if x.visibility == b.visibility && x.system == b.system then [] else [x]
  {
  }

  /** Setting replaces the old items, prepending puts the new ones before and appending behind
      them; each keeps its own order. */
  lemma PlainInOrder(list: seq<Item>, items: seq<Item>, op: MutateOp)
    ensures var r, n, m := Plain(list, items, op), |items|, |list|;
      && (op == Set ==> |r| == n && forall k :: 0 <= k < n ==> r[k] == items[k])
      && (op == PrependList ==>
            && |r| == n + m
            && (forall k :: 0 <= k < n ==> r[k] == items[k])
            && (forall k :: 0 <= k < m ==> r[n + k] == list[k]))
      && (op == AppendList || op == AppendString ==>
            && |r| == m + n
            && (forall k :: 0 <= k < m ==> r[k] == list[k])
            && (forall k :: 0 <= k < n ==> r[m + k] == items[k]))
  {
  }

  /** The bucket of a property after one mutation of it, in the shared list. */
  lemma OwnBucketInOrder(list: seq<Item>, items: seq<Item>, op: MutateOp, own: Bucket)
    requires AllIn(items, own)
    ensures var before, r := Only(list, own), Only(Promoted(list, items, op, own), own);
      && (op == Set ==> r == items)
      && (op == PrependList ==> |r| == |items| + |before| && r[..|items|] == items && r[|items|..] == before)
      && (op == AppendList || op == AppendString ==>
            |r| == |before| + |items| && r[..|before|] == before && r[|before|..] == items)
  {
    MutationStaysInItsBucket(list, items, op, own, own);
  }
}
