/** Which build step produces a path: the duplicate check of the frozen model, and the
    first-match search that relies on it. */
module Producers {
  import opened Ids

  datatype Step = Step(id: Id, effectiveOutputs: seq<string>, effectiveByproducts: seq<string>)
  {
    function Products(): seq<string> {
      effectiveOutputs + effectiveByproducts
    }
  }

  /** A place where a path is listed: the b-th product of step k. */
  ghost predicate IsPlace(steps: seq<Step>, k: int, b: int) {
    0 <= k < |steps| && 0 <= b < |steps[k].Products()|
  }

  /** Two different places list the same path. */
  ghost predicate Clash(steps: seq<Step>, i: int, a: int, k: int, b: int) {
    && IsPlace(steps, i, a) && IsPlace(steps, k, b)
    && (i, a) != (k, b)
    && steps[i].Products()[a] == steps[k].Products()[b]
  }

  ghost predicate HasClash(steps: seq<Step>) {
    exists i, a, k, b :: Clash(steps, i, a, k, b)
  }

  /** The place (i, a) is compared with every place of other steps, and within its own step
      with the later places of its own list and with all of the other list. */
  ghost predicate IsCompared(steps: seq<Step>, i: int, a: int, k: int, b: int)
    requires 0 <= i < |steps|
  {
    k != i || a < b || (a > b && b < |steps[i].effectiveOutputs| <= a)
  }

  ghost predicate ClashFrom(steps: seq<Step>, i: int, a: int) {
    exists k, b :: 0 <= i < |steps| && Clash(steps, i, a, k, b) && IsCompared(steps, i, a, k, b)
  }

  lemma SomeComparisonSeesClash(steps: seq<Step>)
    ensures HasClash(steps) <==> exists i, a :: ClashFrom(steps, i, a)
  {
    if i, a, k, b :| Clash(steps, i, a, k, b) {
      if IsCompared(steps, i, a, k, b) {
        assert ClashFrom(steps, i, a);
      } else {
        assert Clash(steps, k, b, i, a) && IsCompared(steps, k, b, i, a);
        assert ClashFrom(steps, k, b);
      }
    }
  }

  /** One innermost loop. */
  method Occurs(path: string, items: seq<string>, start: nat) returns (found: bool)
    ensures found <==> exists m :: start <= m < |items| && items[m] == path
  {
    found := false;
    var m := start;
    while m < |items|
      invariant start <= m
      invariant found <==> exists h :: start <= h < m && h < |items| && items[h] == path
    {
      if items[m] == path {
        found := true;
      }
      m := m + 1;
    }
  }

  /** Compares one output or byproduct with the products of all steps. */
  method CompareWithAll(steps: seq<Step>, i: nat, a: nat, hadError: bool) returns (hadError': bool)
    requires IsPlace(steps, i, a)
    ensures hadError' <==> hadError || ClashFrom(steps, i, a)
  {
    var path := steps[i].Products()[a];
    var isOutput := a < |steps[i].effectiveOutputs|;
    hadError' := hadError;
    for k := 0 to |steps|
      invariant hadError' <==> hadError || exists h, b :: h < k && Clash(steps, i, a, h, b) && IsCompared(steps, i, a, h, b)
    {
      var rhs := steps[k];
      var j := if isOutput then a else a - |steps[i].effectiveOutputs|;
      var outputStart := if i == k && isOutput then j + 1 else 0;
      var byproductStart := if i == k && !isOutput then j + 1 else 0;
      var inOutputs := Occurs(path, rhs.effectiveOutputs, outputStart);
      var inByproducts := Occurs(path, rhs.effectiveByproducts, byproductStart);
      StepComparison(steps, i, a, k, outputStart, byproductStart);
      if inOutputs || inByproducts {
        hadError' := true;
      }
    }
  }

  lemma StepComparison(steps: seq<Step>, i: nat, a: nat, k: nat, outputStart: nat, byproductStart: nat)
    requires IsPlace(steps, i, a) && k < |steps|
    requires var outputs := |steps[i].effectiveOutputs|;
      && outputStart == (if i == k && a < outputs then a + 1 else 0)
      && byproductStart == (if i == k && a >= outputs then a - outputs + 1 else 0)
    ensures var path, rhs := steps[i].Products()[a], steps[k];
      (exists b :: Clash(steps, i, a, k, b) && IsCompared(steps, i, a, k, b)) <==>
        (exists m :: outputStart <= m < |rhs.effectiveOutputs| && rhs.effectiveOutputs[m] == path) ||
        (exists m :: byproductStart <= m < |rhs.effectiveByproducts| && rhs.effectiveByproducts[m] == path)
  {
    var path, rhs := steps[i].Products()[a], steps[k];
    var outputs := |rhs.effectiveOutputs|;
    if b :| Clash(steps, i, a, k, b) && IsCompared(steps, i, a, k, b) {
      if b < outputs {
        assert rhs.effectiveOutputs[b] == path;
      } else {
        assert rhs.effectiveByproducts[b - outputs] == path;
      }
    }
    if m :| outputStart <= m < outputs && rhs.effectiveOutputs[m] == path {
      assert Clash(steps, i, a, k, m);
    }
    if m :| byproductStart <= m < |rhs.effectiveByproducts| && rhs.effectiveByproducts[m] == path {
      assert rhs.Products()[outputs + m] == path;
      assert Clash(steps, i, a, k, outputs + m);
    }
  }

  /** An error is raised if and only if some path is listed twice, among all outputs and
      byproducts of all steps. */
  method ValidateDuplicateStepProducers(steps: seq<Step>, hadError: bool) returns (hadError': bool)
    ensures hadError' <==> hadError || HasClash(steps)
  {
    hadError' := hadError;
    for i := 0 to |steps|
      invariant hadError' <==> hadError || exists h, a :: h < i && ClashFrom(steps, h, a)
    {
      var outputs, products := |steps[i].effectiveOutputs|, |steps[i].Products()|;
      for j := 0 to outputs
        invariant hadError' <==> (hadError || (exists h, a :: h < i && ClashFrom(steps, h, a)) ||
                                  (exists a :: a < j && ClashFrom(steps, i, a)))
      {
        hadError' := CompareWithAll(steps, i, j, hadError');
      }
      for j := outputs to products
        invariant hadError' <==> (hadError || (exists h, a :: h < i && ClashFrom(steps, h, a)) ||
                                  (exists a :: a < j && ClashFrom(steps, i, a)))
      {
        hadError' := CompareWithAll(steps, i, j, hadError');
      }
      assert forall a :: ClashFrom(steps, i, a) ==> a < products;
    }
    assert forall h, a :: ClashFrom(steps, h, a) ==> h < |steps|;
    SomeComparisonSeesClash(steps);
  }

  // ---- the search ----

  ghost predicate Produces(step: Step, path: string) {
    path in step.Products()
  }

  /** The id of the first step of the list that produces the path. */
  function FindProducer(steps: seq<Step>, path: string): (id: Option<Id>)
    ensures id.None? ==> forall i :: 0 <= i < |steps| ==> !Produces(steps[i], path)
    ensures id.Some? ==> exists i :: 0 <= i < |steps| && Produces(steps[i], path) && steps[i].id == id.value
  {
    if steps == [] then None
    else if path in steps[0].Products() then
      assert Produces(steps[0], path);
      Some(steps[0].id)
    else
      var id := FindProducer(steps[1..], path);
      assert forall i :: 0 < i < |steps| ==> steps[i] == steps[1..][i - 1];
      assert forall i :: 0 <= i < |steps| - 1 ==> steps[1..][i] == steps[i + 1];
      id
  }

  method FindProducerStepIdByPath(steps: seq<Step>, path: string) returns (id: Id)
    ensures match FindProducer(steps, path) case Some(found) => id == found case None => id == INVALID
  {
    for i := 0 to |steps|
      invariant FindProducer(steps, path) == FindProducer(steps[i..], path)
    {
      assert steps[i..][0] == steps[i] && steps[i..][1..] == steps[i + 1..];
      var inOutputs := Occurs(path, steps[i].effectiveOutputs, 0);
      var inByproducts := Occurs(path, steps[i].effectiveByproducts, 0);
      if inOutputs || inByproducts {
        return steps[i].id;
      }
    }
    return INVALID;
  }

  /** Without a duplicate at most one step produces a path. */
  lemma ProducerIsUnique(steps: seq<Step>, path: string, i: nat, k: nat)
    requires !HasClash(steps)
    requires i < |steps| && k < |steps| && Produces(steps[i], path) && Produces(steps[k], path)
    ensures i == k
  {
    var a :| 0 <= a < |steps[i].Products()| && steps[i].Products()[a] == path;
    var b :| 0 <= b < |steps[k].Products()| && steps[k].Products()[b] == path;
    assert i != k ==> Clash(steps, i, a, k, b);
  }

  /** Where the check raises no error, the first match is the only one: the search answers the
      same in whatever order the steps are scanned. */
  lemma FirstMatchIsTheProducer(steps: seq<Step>, scanned: seq<Step>, path: string)
    requires !HasClash(steps) && multiset(scanned) == multiset(steps)
    ensures FindProducer(scanned, path) == FindProducer(steps, path)
    ensures forall i :: 0 <= i < |steps| ==>
              (Produces(steps[i], path) ==> FindProducer(scanned, path) == Some(steps[i].id))
  {
    forall i | 0 <= i < |steps| && Produces(steps[i], path)
      ensures FindProducer(scanned, path) == Some(steps[i].id)
      ensures FindProducer(steps, path) == Some(steps[i].id)
    {
      MemberOfBoth(steps, scanned, steps[i]);
      assert FindProducer(scanned, path).Some? && FindProducer(steps, path).Some?;
      var h :| 0 <= h < |scanned| && Produces(scanned[h], path) && Some(scanned[h].id) == FindProducer(scanned, path);
      MemberOfBoth(scanned, steps, scanned[h]);
      var k :| 0 <= k < |steps| && steps[k] == scanned[h];
      ProducerIsUnique(steps, path, i, k);
      var l :| 0 <= l < |steps| && Produces(steps[l], path) && Some(steps[l].id) == FindProducer(steps, path);
      ProducerIsUnique(steps, path, i, l);
    }
    if FindProducer(scanned, path).Some? {
      var h :| 0 <= h < |scanned| && Produces(scanned[h], path) && Some(scanned[h].id) == FindProducer(scanned, path);
      MemberOfBoth(scanned, steps, scanned[h]);
    }
  }

  lemma MemberOfBoth(a: seq<Step>, b: seq<Step>, s: Step)
    requires multiset(a) == multiset(b) && s in a
    ensures s in b
  {
    assert s in multiset(a);
  }

  // ---- what the definitions come to ----

  /** The lists a step offers: its outputs and its byproducts. */
  function ListOf(step: Step, byproducts: bool): seq<string> {
    if byproducts then step.effectiveByproducts else step.effectiveOutputs
  }

  ghost predicate Listed(steps: seq<Step>, i: nat, byproduct: bool, a: nat, path: string) {
    i < |steps| && a < |ListOf(steps[i], byproduct)| && ListOf(steps[i], byproduct)[a] == path
  }

  function PlaceOf(step: Step, byproduct: bool, a: nat): nat {
    if byproduct then |step.effectiveOutputs| + a else a
  }

  lemma ListedIsPlace(steps: seq<Step>, i: nat, byproduct: bool, a: nat, path: string)
    requires Listed(steps, i, byproduct, a, path)
    ensures IsPlace(steps, i, PlaceOf(steps[i], byproduct, a))
    ensures steps[i].Products()[PlaceOf(steps[i], byproduct, a)] == path
  {
  }

  lemma PlaceIsListed(steps: seq<Step>, i: nat, p: nat) returns (byproduct: bool, a: nat)
    requires IsPlace(steps, i, p)
    ensures Listed(steps, i, byproduct, a, steps[i].Products()[p]) && PlaceOf(steps[i], byproduct, a) == p
  {
    byproduct := p >= |steps[i].effectiveOutputs|;
    a := if byproduct then p - |steps[i].effectiveOutputs| else p;
  }

  /** There is a duplicate when one path stands in two places: in the outputs or byproducts of
      two steps, in both lists of a step, or twice in one list. */
  lemma ClashMeans(steps: seq<Step>)
    ensures HasClash(steps) <==>
            exists i: nat, x, a: nat, k: nat, y, b: nat, path ::
              Listed(steps, i, x, a, path) && Listed(steps, k, y, b, path) && (i, x, a) != (k, y, b)
  {
    if i, p, k, q :| Clash(steps, i, p, k, q) {
      var x, a := PlaceIsListed(steps, i, p);
      var y, b := PlaceIsListed(steps, k, q);
      assert Listed(steps, i, x, a, steps[i].Products()[p]) && Listed(steps, k, y, b, steps[i].Products()[p]);
    }
    if i: nat, x, a: nat, k: nat, y, b: nat, path :| Listed(steps, i, x, a, path) && Listed(steps, k, y, b, path) && (i, x, a) != (k, y, b) {
      ListedIsPlace(steps, i, x, a, path);
      ListedIsPlace(steps, k, y, b, path);
      assert Clash(steps, i, PlaceOf(steps[i], x, a), k, PlaceOf(steps[k], y, b));
    }
  }

  /** The first step that has the path among its outputs or byproducts, duplicates or not. */
  lemma {:induction false} FindsTheFirstProducer(steps: seq<Step>, path: string, i: nat)
    requires i < |steps|
    requires path in steps[i].effectiveOutputs || path in steps[i].effectiveByproducts
    requires forall k :: 0 <= k < i ==> path !in steps[k].effectiveOutputs && path !in steps[k].effectiveByproducts
    ensures FindProducer(steps, path) == Some(steps[i].id)
  {
    if i > 0 {
      assert steps[1..][i - 1] == steps[i];
      assert forall k :: 0 <= k < i - 1 ==> steps[1..][k] == steps[k + 1];
      FindsTheFirstProducer(steps[1..], path, i - 1);
    }
  }

  lemma {:induction false} FindsNoProducer(steps: seq<Step>, path: string)
    requires forall k :: 0 <= k < |steps| ==> path !in steps[k].effectiveOutputs && path !in steps[k].effectiveByproducts
    ensures FindProducer(steps, path) == None
  {
    if steps != [] {
      assert forall k :: 0 <= k < |steps| - 1 ==> steps[1..][k] == steps[k + 1];
      FindsNoProducer(steps[1..], path);
    }
  }
}
