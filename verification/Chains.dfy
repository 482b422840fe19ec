/** Walks along single outgoing links, which the code bounds by the number of records:
    the bound loses nothing, by the pigeonhole principle. */
module Chains {
  import opened Ids
  import opened Graphs

  /** Record i either ends the walk or points to the record links[i].value, which need
      not exist. */
  type Links = seq<Option<nat>>

  /** The walk from c[0] that stays inside the records and ends at its last record. */
  ghost predicate IsChain(links: Links, c: seq<nat>) {
    && |c| > 0
    && (forall i :: 0 <= i < |c| ==> c[i] < |links|)
    && (forall i :: 0 <= i < |c| - 1 ==> links[c[i]] == Some(c[i + 1]))
    && links[c[|c| - 1]].None?
  }

  ghost predicate IsChainFrom(links: Links, c: seq<nat>, start: nat) {
    IsChain(links, c) && c[0] == start
  }

  ghost predicate Ends(links: Links, start: nat) {
    exists c :: IsChainFrom(links, c, start)
  }

  lemma ChainTail(links: Links, c: seq<nat>)
    requires IsChain(links, c) && |c| > 1
    ensures IsChain(links, c[1..]) && links[c[0]] == Some(c[1])
  {
    var t := c[1..];
    forall i | 0 <= i < |t| - 1 ensures links[t[i]] == Some(t[i + 1]) {
      assert links[c[i + 1]] == Some(c[i + 2]);
    }
  }

  lemma ChainPrepend(links: Links, u: nat, c: seq<nat>)
    requires u < |links| && IsChain(links, c) && links[u] == Some(c[0])
    ensures IsChainFrom(links, [u] + c, u)
  {
    var d := [u] + c;
    forall i | 0 <= i < |d| - 1 ensures links[d[i]] == Some(d[i + 1]) {
      if i > 0 { assert links[c[i - 1]] == Some(c[i]); }
    }
  }

  lemma {:induction false} ChainIsUnique(links: Links, c: seq<nat>, d: seq<nat>)
    requires IsChain(links, c) && IsChain(links, d) && c[0] == d[0]
    ensures c == d
    decreases |c|
  {
    if |c| > 1 && |d| > 1 {
      ChainTail(links, c);
      ChainTail(links, d);
      ChainIsUnique(links, c[1..], d[1..]);
      assert c == [c[0]] + c[1..] && d == [d[0]] + d[1..];
    } else if |c| > 1 {
      ChainTail(links, c);
    } else if |d| > 1 {
      ChainTail(links, d);
    }
  }

  lemma {:induction false} ChainSuffix(links: Links, c: seq<nat>, k: nat)
    requires IsChain(links, c) && k < |c|
    ensures IsChain(links, c[k..])
    decreases k
  {
    if k > 0 {
      ChainTail(links, c);
      ChainSuffix(links, c[1..], k - 1);
      assert c[1..][k - 1..] == c[k..];
    }
  }

  lemma ChainHasNoRepeats(links: Links, c: seq<nat>)
    requires IsChain(links, c)
    ensures NoRepeats(c)
  {
    forall i, j | 0 <= i < j < |c| ensures c[i] != c[j] {
      if c[i] == c[j] {
        ChainSuffix(links, c, i);
        ChainSuffix(links, c, j);
        ChainIsUnique(links, c[i..], c[j..]);
        assert false;
      }
    }
  }

  /** Pigeonhole: a list without repeats of numbers below n has at most n entries. */
  lemma {:induction false} Pigeonhole(s: seq<nat>, n: nat)
    requires NoRepeats(s) && forall i :: 0 <= i < |s| ==> s[i] < n
    ensures |s| <= n
  {
    var below := Below(n);
    var members := set i | 0 <= i < |s| :: s[i];
    Distinct(s);
    assert members <= below;
    SubsetIsNotLarger(members, below);
  }

  function Below(n: nat): (numbers: set<nat>)
    ensures |numbers| == n && forall x: nat :: x in numbers <==> x < n
  {
    if n == 0 then {} else Below(n - 1) + {n - 1}
  }

  lemma {:induction false} Distinct(s: seq<nat>)
    requires NoRepeats(s)
    ensures |set i | 0 <= i < |s| :: s[i]| == |s|
  {
    if s != [] {
      var init, last := s[..|s| - 1], s[|s| - 1];
      Distinct(init);
      var members := set i | 0 <= i < |init| :: init[i];
      assert last !in members;
      assert (set i | 0 <= i < |s| :: s[i]) == members + {last} by {
        assert forall i :: 0 <= i < |init| ==> s[i] == init[i];
      }
    }
  }

  lemma {:induction false} SubsetIsNotLarger<T>(a: set<T>, b: set<T>)
    requires a <= b
    ensures |a| <= |b|
  {
    if a != {} {
      var x :| x in a;
      SubsetIsNotLarger(a - {x}, b - {x});
    }
  }

  lemma ChainFits(links: Links, c: seq<nat>)
    requires IsChain(links, c)
    ensures |c| <= |links|
  {
    ChainHasNoRepeats(links, c);
    Pigeonhole(c, |links|);
  }
}
