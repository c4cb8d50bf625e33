/**
 * `_count_components` of the topological memory (oagi_v20_1_self_mod.py):
 * depth-first search over an adjacency matrix, one new component for each
 * vertex not reached from an earlier one.
 */
module Components {

  /** The `adj` argument: n rows, each at least n entries wide (the search reads `adj[v][u]` for u < n). */
  predicate Square(adj: seq<seq<bool>>)
  {
    forall v :: 0 <= v < |adj| ==> |adj[v]| >= |adj|
  }

  predicate Below(vis: set<nat>, n: nat)
  {
    forall x :: x in vis ==> x < n
  }

  function Range(n: nat): (r: set<nat>)
    ensures forall x: nat :: x in r <==> x < n
    ensures |r| == n
  {
    if n == 0 then {} else
      var prev := Range(n - 1);
      var r := prev + {n - 1};
      assert n - 1 !in prev;
      assert |r| == |prev| + 1;
      r
  }

  lemma BelowBound(vis: set<nat>, n: nat)
    requires Below(vis, n)
    ensures |vis| <= n
  {
    assert vis <= Range(n);
    SubsetCard(vis, Range(n));
  }

  lemma SubsetCard(a: set<nat>, b: set<nat>)
    requires a <= b
    ensures |a| <= |b|
  {
    assert b == a + (b - a);
  }

  /** `dfs(v)`: mark v, then visit every unmarked u adjacent to v, in increasing order. */
  function Dfs(adj: seq<seq<bool>>, v: nat, vis: set<nat>): (r: set<nat>)
    requires Square(adj) && v < |adj| && v !in vis && Below(vis, |adj|)
    ensures vis + {v} <= r && Below(r, |adj|)
    decreases |adj| - |vis|, 0, 0
  {
    BelowBound(vis + {v}, |adj|);
    Explore(adj, v, 0, vis + {v})
  }

  /** The loop of `dfs(v)` from neighbour candidate u on. */
  function Explore(adj: seq<seq<bool>>, v: nat, u: nat, vis: set<nat>): (r: set<nat>)
    requires Square(adj) && v < |adj| && u <= |adj| && Below(vis, |adj|)
    ensures vis <= r && Below(r, |adj|)
    decreases |adj| - |vis|, 1, |adj| - u
  {
    BelowBound(vis, |adj|);
    if u == |adj| then vis
    else if adj[v][u] && u !in vis then
      var vis' := Dfs(adj, u, vis);
      BelowBound(vis', |adj|);
      SubsetCard(vis + {u}, vis');
      Explore(adj, v, u + 1, vis')
    else Explore(adj, v, u + 1, vis)
  }

  /** The outer loop from vertex i on: a vertex still unmarked starts a new component. */
  function CountFrom(adj: seq<seq<bool>>, i: nat, vis: set<nat>, count: nat): (c: nat)
    requires Square(adj) && i <= |adj| && Below(vis, |adj|)
    requires count <= |vis|
    ensures count <= c <= |adj|
    ensures i < |adj| && i !in vis ==> c > count
    decreases |adj| - i
  {
    if i == |adj| then
      BelowBound(vis, |adj|);
      count
    else if i !in vis then
      var vis' := Dfs(adj, i, vis);
      SubsetCard(vis + {i}, vis');
      CountFrom(adj, i + 1, vis', count + 1)
    else CountFrom(adj, i + 1, vis, count)
  }

  /** `_count_components`: 0 for an empty matrix, otherwise between 1 and n. */
  function CountComponents(adj: seq<seq<bool>>): (c: nat)
    requires Square(adj)
    ensures |adj| == 0 ==> c == 0
    ensures |adj| > 0 ==> 1 <= c <= |adj|
  {
    CountFrom(adj, 0, {}, 0)
  }

  predicate NoEdges(adj: seq<seq<bool>>)
    requires Square(adj)
  {
    forall v, u :: 0 <= v < |adj| && 0 <= u < |adj| ==> !adj[v][u]
  }

  lemma {:induction false} ExploreNoEdges(adj: seq<seq<bool>>, v: nat, u: nat, vis: set<nat>)
    requires Square(adj) && NoEdges(adj) && v < |adj| && u <= |adj| && Below(vis, |adj|)
    ensures Explore(adj, v, u, vis) == vis
    decreases |adj| - u
  {
    if u < |adj| {
      ExploreNoEdges(adj, v, u + 1, vis);
    }
  }

  lemma {:induction false} CountFromNoEdges(adj: seq<seq<bool>>, i: nat, count: nat)
    requires Square(adj) && NoEdges(adj) && i <= |adj| && count == i
    ensures CountFrom(adj, i, Range(i), count) == |adj|
    decreases |adj| - i
  {
    if i < |adj| {
      ExploreNoEdges(adj, i, 0, Range(i) + {i});
      assert Range(i) + {i} == Range(i + 1);
      CountFromNoEdges(adj, i + 1, count + 1);
    }
  }

  /** With no edges every vertex is its own component. */
  lemma NoEdgesComponents(adj: seq<seq<bool>>)
    requires Square(adj) && NoEdges(adj)
    ensures CountComponents(adj) == |adj|
  {
    assert Range(0) == {};
    CountFromNoEdges(adj, 0, 0);
  }

  /** Row v all true: the loop of `dfs(v)` reaches every vertex from u on. */
  lemma {:induction false} ExploreReachesAll(adj: seq<seq<bool>>, v: nat, u: nat, vis: set<nat>)
    requires Square(adj) && v < |adj| && u <= |adj| && Below(vis, |adj|)
    requires forall w :: 0 <= w < |adj| ==> adj[v][w]
    ensures forall w :: u <= w < |adj| ==> w in Explore(adj, v, u, vis)
    decreases |adj| - u
  {
    if u < |adj| {
      if u !in vis {
        var vis' := Dfs(adj, u, vis);
        ExploreReachesAll(adj, v, u + 1, vis');
      } else {
        ExploreReachesAll(adj, v, u + 1, vis);
      }
    }
  }

  lemma {:induction false} CountFromAllVisited(adj: seq<seq<bool>>, i: nat, vis: set<nat>, count: nat)
    requires Square(adj) && i <= |adj| && Below(vis, |adj|) && count <= |vis|
    requires forall w :: 0 <= w < |adj| ==> w in vis
    ensures CountFrom(adj, i, vis, count) == count
    decreases |adj| - i
  {
    if i < |adj| {
      CountFromAllVisited(adj, i + 1, vis, count);
    }
  }

  /** A vertex 0 joined to every vertex makes the whole graph one component. */
  lemma HubOneComponent(adj: seq<seq<bool>>)
    requires Square(adj) && |adj| > 0
    requires forall w :: 0 <= w < |adj| ==> adj[0][w]
    ensures CountComponents(adj) == 1
  {
    var vis := Dfs(adj, 0, {});
    assert {} + {0} == {0};
    assert vis == Explore(adj, 0, 0, {0});
    ExploreReachesAll(adj, 0, 0, {0});
    SubsetCard({0}, vis);
    CountFromAllVisited(adj, 1, vis, 1);
  }

  // Reachability, defined independently of the search.

  /** A walk along edges of `adj`: every vertex below n, each step an edge. */
  ghost predicate IsPath(adj: seq<seq<bool>>, p: seq<nat>)
    requires Square(adj)
  {
    && |p| > 0
    && (forall k :: 0 <= k < |p| ==> p[k] < |adj|)
    && (forall k :: 0 <= k < |p| - 1 ==> adj[p[k]][p[k + 1]])
  }

  /** w can be reached from v along edges of `adj`. */
  ghost predicate Reach(adj: seq<seq<bool>>, v: nat, w: nat)
    requires Square(adj)
  {
    exists p :: IsPath(adj, p) && p[0] == v && p[|p| - 1] == w
  }

  /** No smaller vertex reaches v, so the outer loop finds v unmarked. */
  ghost predicate Leader(adj: seq<seq<bool>>, v: nat)
    requires Square(adj)
  {
    forall u: nat :: u < v ==> !Reach(adj, u, v)
  }

  ghost function Leaders(adj: seq<seq<bool>>, i: nat): set<nat>
    requires Square(adj)
  {
    set v: nat | v < i && Leader(adj, v)
  }

  /** Every vertex reachable from one of the first i vertices. */
  ghost function Reached(adj: seq<seq<bool>>, i: nat): set<nat>
    requires Square(adj)
  {
    set w: nat | w < |adj| && ReachedBefore(adj, i, w)
  }

  ghost predicate ReachedBefore(adj: seq<seq<bool>>, i: nat, w: nat)
    requires Square(adj)
  {
    exists u: nat :: u < i && Reach(adj, u, w)
  }

  /** Every edge leaving a vertex of s, other than those in `except`, stays in s. */
  predicate ClosedOutside(adj: seq<seq<bool>>, s: set<nat>, except: set<nat>)
    requires Square(adj)
  {
    forall x: nat, y: nat :: x in s && x !in except && x < |adj| && y < |adj| && adj[x][y] ==> y in s
  }

  predicate Symmetric(adj: seq<seq<bool>>)
    requires Square(adj)
  {
    forall v, u :: 0 <= v < |adj| && 0 <= u < |adj| ==> adj[v][u] == adj[u][v]
  }

  /** v is the least vertex of the vertices it reaches. */
  ghost predicate LeastOfComponent(adj: seq<seq<bool>>, v: nat)
    requires Square(adj)
  {
    forall w: nat :: w < |adj| && Reach(adj, v, w) ==> v <= w
  }

  lemma ReachRefl(adj: seq<seq<bool>>, v: nat)
    requires Square(adj) && v < |adj|
    ensures Reach(adj, v, v)
  {
    assert IsPath(adj, [v]);
  }

  /** An edge v → u followed by a walk from u. */
  lemma ReachStep(adj: seq<seq<bool>>, v: nat, u: nat, w: nat)
    requires Square(adj) && v < |adj| && u < |adj| && adj[v][u] && Reach(adj, u, w)
    ensures Reach(adj, v, w)
  {
    var p :| IsPath(adj, p) && p[0] == u && p[|p| - 1] == w;
    var q := [v] + p;
    assert forall k :: 0 <= k < |p| ==> q[k + 1] == p[k];
    assert IsPath(adj, q);
  }

  /** A walk to x followed by an edge x → y. */
  lemma ReachExtend(adj: seq<seq<bool>>, u: nat, x: nat, y: nat)
    requires Square(adj) && x < |adj| && y < |adj| && adj[x][y] && Reach(adj, u, x)
    ensures Reach(adj, u, y)
  {
    var p :| IsPath(adj, p) && p[0] == u && p[|p| - 1] == x;
    var q := p + [y];
    assert forall k :: 0 <= k < |p| ==> q[k] == p[k];
    assert IsPath(adj, q);
  }

  /** On a symmetric matrix a walk can be taken backwards. */
  lemma ReachBack(adj: seq<seq<bool>>, v: nat, w: nat)
    requires Square(adj) && Symmetric(adj) && Reach(adj, v, w)
    ensures Reach(adj, w, v)
  {
    var p :| IsPath(adj, p) && p[0] == v && p[|p| - 1] == w;
    var q := seq(|p|, k requires 0 <= k < |p| => p[|p| - 1 - k]);
    forall k | 0 <= k < |q| - 1 ensures adj[q[k]][q[k + 1]] {
      var j := |p| - 2 - k;
      assert adj[p[j]][p[j + 1]];
    }
    assert IsPath(adj, q);
  }

  lemma {:induction false} PathInside(adj: seq<seq<bool>>, s: set<nat>, p: seq<nat>, k: nat)
    requires Square(adj) && ClosedOutside(adj, s, {}) && IsPath(adj, p) && p[0] in s && k < |p|
    ensures p[k] in s
  {
    if k > 0 {
      PathInside(adj, s, p, k - 1);
      assert adj[p[k - 1]][p[k]];
    }
  }

  /** A set closed under edges holds everything reachable from its members. */
  lemma ClosedReach(adj: seq<seq<bool>>, s: set<nat>, v: nat, w: nat)
    requires Square(adj) && ClosedOutside(adj, s, {}) && v in s && Reach(adj, v, w)
    ensures w in s
  {
    var p :| IsPath(adj, p) && p[0] == v && p[|p| - 1] == w;
    PathInside(adj, s, p, |p| - 1);
  }

  /**
   * `dfs(v)` marks only vertices reachable from v, and every vertex it newly
   * marks has all its neighbours marked.
   */
  lemma {:induction false} DfsFacts(adj: seq<seq<bool>>, v: nat, vis: set<nat>)
    requires Square(adj) && v < |adj| && v !in vis && Below(vis, |adj|)
    ensures ClosedOutside(adj, Dfs(adj, v, vis), vis)
    ensures forall w :: w in Dfs(adj, v, vis) && w !in vis ==> Reach(adj, v, w)
    decreases |adj| - |vis|, 0, 0
  {
    BelowBound(vis + {v}, |adj|);
    var r := Dfs(adj, v, vis);
    ExploreFacts(adj, v, 0, vis + {v});
    ReachRefl(adj, v);
  }

  lemma {:induction false} ExploreFacts(adj: seq<seq<bool>>, v: nat, u: nat, vis: set<nat>)
    requires Square(adj) && v < |adj| && u <= |adj| && Below(vis, |adj|)
    ensures ClosedOutside(adj, Explore(adj, v, u, vis), vis)
    ensures forall y: nat :: u <= y < |adj| && adj[v][y] ==> y in Explore(adj, v, u, vis)
    ensures forall w :: w in Explore(adj, v, u, vis) && w !in vis ==> Reach(adj, v, w)
    decreases |adj| - |vis|, 1, |adj| - u
  {
    BelowBound(vis, |adj|);
    if u == |adj| {
    } else if adj[v][u] && u !in vis {
      var vis' := Dfs(adj, u, vis);
      BelowBound(vis', |adj|);
      SubsetCard(vis + {u}, vis');
      DfsFacts(adj, u, vis);
      ExploreFacts(adj, v, u + 1, vis');
      var r := Explore(adj, v, u + 1, vis');
      assert r == Explore(adj, v, u, vis);
      forall w | w in r && w !in vis ensures Reach(adj, v, w) {
        if w in vis' {
          ReachStep(adj, v, u, w);
        }
      }
    } else {
      ExploreFacts(adj, v, u + 1, vis);
    }
  }

  /** Reached(i) is closed under edges. */
  lemma ReachedClosed(adj: seq<seq<bool>>, i: nat)
    requires Square(adj)
    ensures ClosedOutside(adj, Reached(adj, i), {})
  {
    forall x: nat, y: nat | x in Reached(adj, i) && x < |adj| && y < |adj| && adj[x][y]
      ensures y in Reached(adj, i)
    {
      var u: nat :| u < i && Reach(adj, u, x);
      ReachExtend(adj, u, x, y);
    }
  }

  /** Vertex i is unmarked exactly when it leads: the marks are Reached(i). */
  lemma ReachedLeader(adj: seq<seq<bool>>, i: nat)
    requires Square(adj) && i < |adj|
    ensures i !in Reached(adj, i) <==> Leader(adj, i)
  {
  }

  /** The search from an unmarked i adds exactly what i reaches. */
  lemma ReachedGrow(adj: seq<seq<bool>>, i: nat)
    requires Square(adj) && i < |adj| && i !in Reached(adj, i)
    ensures Below(Reached(adj, i), |adj|)
    ensures Dfs(adj, i, Reached(adj, i)) == Reached(adj, i + 1)
  {
    var vis := Reached(adj, i);
    var r := Dfs(adj, i, vis);
    DfsFacts(adj, i, vis);
    ReachedClosed(adj, i);
    assert ClosedOutside(adj, r, {});
    forall w | w in r ensures w in Reached(adj, i + 1) {
      if w !in vis {
        assert Reach(adj, i, w);
      }
    }
    forall w | w in Reached(adj, i + 1) ensures w in r {
      var u: nat :| u < i + 1 && Reach(adj, u, w);
      if u == i {
        ClosedReach(adj, r, i, w);
      } else {
        assert w in vis;
      }
    }
  }

  /** A marked i adds nothing new to Reached. */
  lemma ReachedSame(adj: seq<seq<bool>>, i: nat)
    requires Square(adj) && i < |adj| && i in Reached(adj, i)
    ensures Reached(adj, i + 1) == Reached(adj, i)
  {
    ReachedClosed(adj, i);
    forall w | w in Reached(adj, i + 1) ensures w in Reached(adj, i) {
      var u: nat :| u < i + 1 && Reach(adj, u, w);
      if u == i {
        ClosedReach(adj, Reached(adj, i), i, w);
      }
    }
  }

  lemma LeadersStep(adj: seq<seq<bool>>, i: nat)
    requires Square(adj)
    ensures |Leaders(adj, i + 1)| == |Leaders(adj, i)| + (if Leader(adj, i) then 1 else 0)
  {
    if Leader(adj, i) {
      assert Leaders(adj, i + 1) == Leaders(adj, i) + {i};
    } else {
      assert Leaders(adj, i + 1) == Leaders(adj, i);
    }
  }

  lemma {:induction false} CountFromLeaders(adj: seq<seq<bool>>, i: nat, count: nat)
    requires Square(adj) && i <= |adj| && count == |Leaders(adj, i)|
    requires Below(Reached(adj, i), |adj|) && count <= |Reached(adj, i)|
    ensures CountFrom(adj, i, Reached(adj, i), count) == |Leaders(adj, |adj|)|
    decreases |adj| - i
  {
    if i < |adj| {
      var vis := Reached(adj, i);
      ReachedLeader(adj, i);
      if i !in vis {
        ReachedGrow(adj, i);
        var vis' := Dfs(adj, i, vis);
        SubsetCard(vis + {i}, vis');
        LeadersStep(adj, i);
        CountFromLeaders(adj, i + 1, count + 1);
      } else {
        ReachedSame(adj, i);
        LeadersStep(adj, i);
        CountFromLeaders(adj, i + 1, count);
      }
    }
  }

  /** `_count_components` counts the vertices that no smaller vertex reaches. */
  lemma CountComponentsLeaders(adj: seq<seq<bool>>)
    requires Square(adj)
    ensures CountComponents(adj) == |Leaders(adj, |adj|)|
  {
    assert Reached(adj, 0) == {};
    assert Leaders(adj, 0) == {};
    CountFromLeaders(adj, 0, 0);
  }

  /** On a symmetric matrix, the leaders are the least vertices of the components. */
  lemma LeaderIsLeast(adj: seq<seq<bool>>, v: nat)
    requires Square(adj) && Symmetric(adj) && v < |adj|
    ensures Leader(adj, v) <==> LeastOfComponent(adj, v)
  {
    if Leader(adj, v) {
      forall w: nat | w < |adj| && Reach(adj, v, w) ensures v <= w {
        if w < v {
          ReachBack(adj, v, w);
        }
      }
    }
    if LeastOfComponent(adj, v) {
      forall u: nat | u < v ensures !Reach(adj, u, v) {
        if Reach(adj, u, v) {
          ReachBack(adj, u, v);
        }
      }
    }
  }

  /**
   * For a symmetric matrix, `_count_components` is the number of connected
   * components, each counted once at its least vertex.
   */
  lemma ComponentsCounted(adj: seq<seq<bool>>)
    requires Square(adj) && Symmetric(adj)
    ensures CountComponents(adj) == |set v: nat | v < |adj| && LeastOfComponent(adj, v)|
  {
    CountComponentsLeaders(adj);
    forall v: nat | v < |adj| ensures Leader(adj, v) <==> LeastOfComponent(adj, v) {
      LeaderIsLeast(adj, v);
    }
    assert Leaders(adj, |adj|) == set v: nat | v < |adj| && LeastOfComponent(adj, v);
  }
}
