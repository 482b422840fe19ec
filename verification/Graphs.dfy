/** Finite directed graphs as successor lists, with the path arguments that the
    depth-first traversals of the build model rest on. */
module Graphs {

  /** Node u has the successors g[u], in the order in which a traversal looks at them. */
  type Graph = seq<seq<nat>>

  ghost predicate WellFormed(g: Graph) {
    forall u, i :: 0 <= u < |g| && 0 <= i < |g[u]| ==> g[u][i] < |g|
  }

  predicate Edge(g: Graph, u: nat, v: nat) {
    u < |g| && v in g[u]
  }

  ghost predicate IsPath(g: Graph, p: seq<nat>) {
    |p| > 0 && forall i :: 0 <= i < |p| - 1 ==> Edge(g, p[i], p[i + 1])
  }

  ghost predicate IsPathFromTo(g: Graph, p: seq<nat>, u: nat, v: nat) {
    IsPath(g, p) && p[0] == u && p[|p| - 1] == v
  }

  /** v can be reached from u by following zero or more edges. */
  ghost predicate Reaches(g: Graph, u: nat, v: nat) {
    exists p :: IsPathFromTo(g, p, u, v)
  }

  ghost predicate Avoids(p: seq<nat>, blocked: set<nat>) {
    forall i :: 0 <= i < |p| ==> p[i] !in blocked
  }

  /** v can be reached from u by a path none of whose nodes, u and v included, is blocked. */
  ghost predicate ReachesAvoiding(g: Graph, u: nat, v: nat, blocked: set<nat>) {
    exists p :: IsPathFromTo(g, p, u, v) && Avoids(p, blocked)
  }

  ghost predicate IsCycle(g: Graph, p: seq<nat>) {
    |p| > 1 && IsPath(g, p) && p[0] == p[|p| - 1]
  }

  ghost predicate HasCycle(g: Graph) {
    exists p :: IsCycle(g, p)
  }

  lemma ReachesSelf(g: Graph, u: nat)
    ensures Reaches(g, u, u)
  {
    assert IsPathFromTo(g, [u], u, u);
  }

  lemma ReachesEdge(g: Graph, u: nat, v: nat, w: nat)
    requires Reaches(g, u, v) && Edge(g, v, w)
    ensures Reaches(g, u, w)
  {
    var p :| IsPathFromTo(g, p, u, v);
    assert IsPathFromTo(g, p + [w], u, w);
  }

  /** An edge back to a node the current one was reached from closes a cycle. */
  lemma BackEdgeClosesCycle(g: Graph, u: nat, v: nat)
    requires Reaches(g, v, u) && Edge(g, u, v)
    ensures HasCycle(g)
  {
    var p :| IsPathFromTo(g, p, v, u);
    assert IsCycle(g, p + [v]);
  }

  lemma AvoidingSelf(g: Graph, u: nat, blocked: set<nat>)
    requires u !in blocked
    ensures ReachesAvoiding(g, u, u, blocked)
  {
    assert IsPathFromTo(g, [u], u, u) && Avoids([u], blocked);
  }

  lemma AvoidingStep(g: Graph, u: nat, w: nat, v: nat, blocked: set<nat>, more: set<nat>)
    requires u !in blocked && Edge(g, u, w) && blocked <= more
    requires ReachesAvoiding(g, w, v, more)
    ensures ReachesAvoiding(g, u, v, blocked)
  {
    var p :| IsPathFromTo(g, p, w, v) && Avoids(p, more);
    var q := [u] + p;
    assert IsPathFromTo(g, q, u, v) by {
      forall i | 0 <= i < |q| - 1 ensures Edge(g, q[i], q[i + 1]) {
        if i > 0 { assert Edge(g, p[i - 1], p[i]); }
      }
    }
    assert Avoids(q, blocked);
  }

  /** Where a path last leaves its first node, every later node is different from it. */
  lemma LastVisit(p: seq<nat>) returns (k: nat)
    requires |p| > 0
    ensures k < |p| && p[k] == p[0]
    ensures forall i :: k < i < |p| ==> p[i] != p[0]
  {
    k := |p| - 1;
    while p[k] != p[0]
      invariant k < |p|
      invariant forall i :: k < i < |p| ==> p[i] != p[0]
      decreases k
    {
      k := k - 1;
    }
  }

  /** The one step that justifies marking only the current path: what u reaches around
      the blocked nodes is u itself and what its successors reach around those and u. */
  lemma AvoidingUnfold(g: Graph, u: nat, v: nat, blocked: set<nat>)
    requires u !in blocked
    ensures ReachesAvoiding(g, u, v, blocked) <==>
            v == u || exists w :: Edge(g, u, w) && ReachesAvoiding(g, w, v, blocked + {u})
  {
    AvoidingSelf(g, u, blocked);
    if w :| Edge(g, u, w) && ReachesAvoiding(g, w, v, blocked + {u}) {
      AvoidingStep(g, u, w, v, blocked, blocked + {u});
    }
    if ReachesAvoiding(g, u, v, blocked) && v != u {
      var p :| IsPathFromTo(g, p, u, v) && Avoids(p, blocked);
      var k := LastVisit(p);
      var q := p[k + 1..];
      var w := q[0];
      assert Edge(g, p[k], p[k + 1]);
      assert IsPathFromTo(g, q, w, v) by {
        forall i | 0 <= i < |q| - 1 ensures Edge(g, q[i], q[i + 1]) {
          assert Edge(g, p[k + 1 + i], p[k + 2 + i]);
        }
      }
      assert Avoids(q, blocked + {u});
      assert Edge(g, u, w) && ReachesAvoiding(g, w, v, blocked + {u});
    }
  }

  lemma AvoidingLess(g: Graph, u: nat, v: nat, blocked: set<nat>, more: set<nat>)
    requires blocked <= more && ReachesAvoiding(g, u, v, more)
    ensures ReachesAvoiding(g, u, v, blocked)
  {
    var p :| IsPathFromTo(g, p, u, v) && Avoids(p, more);
    assert Avoids(p, blocked);
  }

  /** Blocking x as well loses only what x itself reaches. */
  lemma AvoidingOneMore(g: Graph, u: nat, v: nat, blocked: set<nat>, x: nat)
    requires ReachesAvoiding(g, u, v, blocked)
    ensures ReachesAvoiding(g, u, v, blocked + {x}) || ReachesAvoiding(g, x, v, blocked)
  {
    var p :| IsPathFromTo(g, p, u, v) && Avoids(p, blocked);
    if k :| 0 <= k < |p| && p[k] == x {
      var q := p[k..];
      assert IsPathFromTo(g, q, x, v) by {
        forall i | 0 <= i < |q| - 1 ensures Edge(g, q[i], q[i + 1]) {
          assert Edge(g, p[k + i], p[k + i + 1]);
        }
      }
      assert Avoids(q, blocked);
    } else {
      assert Avoids(p, blocked + {x});
    }
  }

  lemma AvoidingNothing(g: Graph, u: nat, v: nat)
    ensures ReachesAvoiding(g, u, v, {}) <==> Reaches(g, u, v)
  {
    if p :| IsPathFromTo(g, p, u, v) {
      assert Avoids(p, {});
    }
  }

  /** Some goal can be reached from u around the blocked nodes. */
  ghost predicate Hits(g: Graph, u: nat, blocked: set<nat>, goals: set<nat>) {
    exists v :: v in goals && ReachesAvoiding(g, u, v, blocked)
  }

  lemma HitsNothingFromBlocked(g: Graph, u: nat, blocked: set<nat>, goals: set<nat>)
    requires u in blocked
    ensures !Hits(g, u, blocked, goals)
  {
    forall v, p | IsPathFromTo(g, p, u, v) ensures !Avoids(p, blocked) {
      assert p[0] in blocked;
    }
  }

  lemma HitsUnfold(g: Graph, u: nat, blocked: set<nat>, goals: set<nat>)
    requires u !in blocked
    ensures Hits(g, u, blocked, goals) <==>
            u in goals || exists w :: Edge(g, u, w) && Hits(g, w, blocked + {u}, goals)
  {
    AvoidingSelf(g, u, blocked);
    if v :| v in goals && ReachesAvoiding(g, u, v, blocked) {
      AvoidingUnfold(g, u, v, blocked);
    }
    if w :| Edge(g, u, w) && Hits(g, w, blocked + {u}, goals) {
      var v :| v in goals && ReachesAvoiding(g, w, v, blocked + {u});
      AvoidingUnfold(g, u, v, blocked);
    }
  }

  lemma HitsLess(g: Graph, u: nat, blocked: set<nat>, more: set<nat>, goals: set<nat>)
    requires blocked <= more && Hits(g, u, more, goals)
    ensures Hits(g, u, blocked, goals)
  {
    var v :| v in goals && ReachesAvoiding(g, u, v, more);
    AvoidingLess(g, u, v, blocked, more);
  }

  /** The positions that a table of flags marks, and those it does not. */
  ghost function Marked(flags: seq<bool>): set<nat> {
    set u: nat | u < |flags| && flags[u]
  }

  ghost function Unmarked(flags: seq<bool>): set<nat> {
    set u: nat | u < |flags| && !flags[u]
  }

  // ---- finishing orders ----

  ghost predicate NoRepeats<T(!new)>(s: seq<T>) {
    forall i, j :: 0 <= i < j < |s| ==> s[i] != s[j]
  }

  /** Every edge out of a node of the list leads to a node that stands earlier in it. */
  ghost predicate FinishOrdered(g: Graph, order: seq<nat>) {
    forall k, v :: 0 <= k < |order| && Edge(g, order[k], v) ==> v in order[..k]
  }

  /** A list of all nodes, once each, in which every node follows all its successors. */
  ghost predicate IsBuildOrder(g: Graph, order: seq<nat>) {
    && NoRepeats(order)
    && (forall u: nat :: u in order <==> u < |g|)
    && FinishOrdered(g, order)
  }

  lemma {:induction false} PathGoesBack(g: Graph, order: seq<nat>, p: seq<nat>, k: nat)
    requires FinishOrdered(g, order) && IsPath(g, p)
    requires k < |order| && order[k] == p[0] && |p| > 1
    ensures p[|p| - 1] in order[..k]
    decreases |p|
  {
    assert Edge(g, p[0], p[1]);
    var j :| 0 <= j < k && order[j] == p[1];
    if |p| > 2 {
      var q := p[1..];
      assert IsPath(g, q) by {
        forall i | 0 <= i < |q| - 1 ensures Edge(g, q[i], q[i + 1]) {
          assert Edge(g, p[i + 1], p[i + 2]);
        }
      }
      PathGoesBack(g, order, q, j);
      assert order[..j] <= order[..k];
    }
  }

  /** A build order exists only where there is no cycle. */
  lemma BuildOrderHasNoCycle(g: Graph, order: seq<nat>)
    requires IsBuildOrder(g, order)
    ensures !HasCycle(g)
  {
    if p :| IsCycle(g, p) {
      assert Edge(g, p[0], p[1]);
      assert p[0] in order;
      var k :| 0 <= k < |order| && order[k] == p[0];
      PathGoesBack(g, order, p, k);
      assert false;
    }
  }
}
