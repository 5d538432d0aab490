/**
 The depth-first topological sort of sintax.go (`topoSort`) over a dependency graph that
 maps each key to the names it depends on. A dependency is listed before every key that
 depends on it; a cycle, a self-edge included, is an error.
 */
module Topo {
  import opened Wrappers
  import opened Values

  /** Each key with the names it refers to, in the order they occur. Names that are not
      keys are ignored by the sort. */
  type Graph = map<string, seq<string>>

  /** Go's map iteration order, which varies from run to run: for each key set, some
      listing of it. Every property below holds for every such listing. */
  type KeyOrder = set<string> -> seq<string>

  predicate NoDup(s: seq<string>) {
    forall i, j :: 0 <= i < j < |s| ==> s[i] != s[j]
  }

  /** `s` lists every element of `keys` exactly once. */
  predicate Enumerates(s: seq<string>, keys: set<string>) {
    NoDup(s) && (forall i :: 0 <= i < |s| ==> s[i] in keys) && (forall k :: k in keys ==> k in s)
  }

  ghost predicate ValidOrder(ord: KeyOrder) {
    forall keys: set<string> :: Enumerates(ord(keys), keys)
  }

  // ---------------------------------------------------------------------------
  // The sort
  // ---------------------------------------------------------------------------

  /** `visit(node)`. `temp` holds the nodes whose visit is in progress and `order` the
      finished ones (`perm`), in finishing order. */
  function VisitNode(g: Graph, node: string, temp: set<string>, order: seq<string>): (r: Result<seq<string>, Error>)
    requires node in g && temp <= g.Keys
    ensures r.Err? ==> r.error == CycleDetected
    decreases |g.Keys - temp|, 0
  {
    if node in order then Ok(order)
    else if node in temp then Err(CycleDetected)
    else
      assert g.Keys - temp == (g.Keys - (temp + {node})) + {node};
      match VisitDeps(g, node, 0, temp + {node}, order)
      case Err(e) => Err(e)
      case Ok(o) => Ok(o + [node])
  }

  /** The loop over `graph[node]` from index j, visiting the dependencies that are keys. */
  function VisitDeps(g: Graph, node: string, j: nat, temp: set<string>, order: seq<string>): (r: Result<seq<string>, Error>)
    requires node in g && j <= |g[node]| && temp <= g.Keys
    ensures r.Err? ==> r.error == CycleDetected
    decreases |g.Keys - temp|, 1, |g[node]| - j
  {
    if j == |g[node]| then Ok(order)
    else
      var dep := g[node][j];
      if dep !in g then VisitDeps(g, node, j + 1, temp, order)
      else
        match VisitNode(g, dep, temp, order)
        case Err(e) => Err(e)
        case Ok(o) => VisitDeps(g, node, j + 1, temp, o)
  }

  /** The outer loop over the keys, in the order Go's map iteration yields them. */
  function VisitRoots(g: Graph, roots: seq<string>, i: nat, order: seq<string>): (r: Result<seq<string>, Error>)
    requires i <= |roots| && forall k :: 0 <= k < |roots| ==> roots[k] in g
    ensures r.Err? ==> r.error == CycleDetected
    decreases |roots| - i
  {
    if i == |roots| then Ok(order)
    else if roots[i] in order then VisitRoots(g, roots, i + 1, order)
    else
      match VisitNode(g, roots[i], {}, order)
      case Err(e) => Err(e)
      case Ok(o) => VisitRoots(g, roots, i + 1, o)
  }

  /** `topoSort`. The error is a plain "circular dependency detected" error, not the
      `ErrCircularDependency` sentinel. */
  function TopoSort(g: Graph, ord: KeyOrder): (r: Result<seq<string>, Error>)
    requires ValidOrder(ord)
    ensures r.Err? ==> r.error == CycleDetected
    ensures r.Ok? ==> IsTopoOrder(g, r.value)
  {
    var roots := ord(g.Keys);
    assert Enumerates(roots, g.Keys);
    VisitRootsSorts(g, roots, 0, []);
    VisitRoots(g, roots, 0, [])
  }

  // ---------------------------------------------------------------------------
  // What a successful sort produces
  // ---------------------------------------------------------------------------

  /** Every dependency of an element that is a key occurs earlier in the sequence. */
  predicate DepsBefore(g: Graph, s: seq<string>) {
    forall i :: 0 <= i < |s| && s[i] in g ==> forall d :: d in g[s[i]] && d in g ==> d in s[..i]
  }

  /** `s` lists every key once, each after all of its dependencies that are keys. */
  predicate IsTopoOrder(g: Graph, s: seq<string>) {
    Enumerates(s, g.Keys) && DepsBefore(g, s)
  }

  /** The invariant of the finished list. */
  predicate Finished(g: Graph, s: seq<string>) {
    NoDup(s) && (forall i :: 0 <= i < |s| ==> s[i] in g) && DepsBefore(g, s)
  }

  /** No node of a visit in progress is finished. */
  predicate Apart(temp: set<string>, s: seq<string>) {
    forall x :: x in temp ==> x !in s
  }

  lemma {:induction false} AppendFinished(g: Graph, s: seq<string>, node: string)
    requires Finished(g, s) && node in g && node !in s
    requires forall d :: d in g[node] && d in g ==> d in s
    ensures Finished(g, s + [node])
  {
    var t := s + [node];
    assert t[..|s|] == s;
    forall i | 0 <= i < |t| && t[i] in g
      ensures forall d :: d in g[t[i]] && d in g ==> d in t[..i]
    {
      if i < |s| {
        assert t[..i] == s[..i];
      }
    }
  }

  lemma {:induction false} VisitNodeFinishes(g: Graph, node: string, temp: set<string>, order: seq<string>)
    requires node in g && temp <= g.Keys
    requires Finished(g, order) && Apart(temp, order)
    ensures var r := VisitNode(g, node, temp, order);
      r.Ok? ==> order <= r.value && node in r.value && Finished(g, r.value) && Apart(temp, r.value)
    decreases |g.Keys - temp|, 0
  {
    if node !in order && node !in temp {
      assert g.Keys - temp == (g.Keys - (temp + {node})) + {node};
      VisitDepsFinishes(g, node, 0, temp + {node}, order);
      var r := VisitDeps(g, node, 0, temp + {node}, order);
      if r.Ok? {
        AppendFinished(g, r.value, node);
        assert order <= r.value + [node];
      }
    }
  }

  lemma {:induction false} VisitDepsFinishes(g: Graph, node: string, j: nat, temp: set<string>, order: seq<string>)
    requires node in g && j <= |g[node]| && temp <= g.Keys
    requires Finished(g, order) && Apart(temp, order)
    requires forall k :: 0 <= k < j && g[node][k] in g ==> g[node][k] in order
    ensures var r := VisitDeps(g, node, j, temp, order);
      r.Ok? ==> (order <= r.value && Finished(g, r.value) && Apart(temp, r.value)
                 && forall d :: d in g[node] && d in g ==> d in r.value)
    decreases |g.Keys - temp|, 1, |g[node]| - j
  {
    if j == |g[node]| {
      forall d | d in g[node] && d in g ensures d in order {
        var k :| 0 <= k < |g[node]| && g[node][k] == d;
      }
    } else {
      var dep := g[node][j];
      if dep !in g {
        VisitDepsFinishes(g, node, j + 1, temp, order);
      } else {
        VisitNodeFinishes(g, dep, temp, order);
        var r := VisitNode(g, dep, temp, order);
        if r.Ok? {
          forall k | 0 <= k < j + 1 && g[node][k] in g ensures g[node][k] in r.value {
            if k < j {
              assert g[node][k] in order;
              PrefixMember(order, r.value, g[node][k]);
            }
          }
          VisitDepsFinishes(g, node, j + 1, temp, r.value);
          var r2 := VisitDeps(g, node, j + 1, temp, r.value);
          if r2.Ok? {
            assert order <= r2.value;
          }
        }
      }
    }
  }

  lemma {:induction false} PrefixMember(a: seq<string>, b: seq<string>, x: string)
    requires a <= b && x in a
    ensures x in b
  {
    var i :| 0 <= i < |a| && a[i] == x;
    assert b[i] == x;
  }

  lemma {:induction false} VisitRootsFinishes(g: Graph, roots: seq<string>, i: nat, order: seq<string>)
    requires i <= |roots| && forall k :: 0 <= k < |roots| ==> roots[k] in g
    requires Finished(g, order)
    requires forall k :: 0 <= k < i ==> roots[k] in order
    ensures var r := VisitRoots(g, roots, i, order);
      r.Ok? ==> (Finished(g, r.value) && (forall k :: 0 <= k < |roots| ==> roots[k] in r.value)
                 && forall x :: x in order ==> x in r.value)
    decreases |roots| - i
  {
    if i < |roots| {
      if roots[i] in order {
        VisitRootsFinishes(g, roots, i + 1, order);
      } else {
        VisitNodeFinishes(g, roots[i], {}, order);
        var r := VisitNode(g, roots[i], {}, order);
        if r.Ok? {
          forall k | 0 <= k < i + 1 ensures roots[k] in r.value {
            if k < i { PrefixMember(order, r.value, roots[k]); }
          }
          forall x | x in order ensures x in r.value { PrefixMember(order, r.value, x); }
          VisitRootsFinishes(g, roots, i + 1, r.value);
        }
      }
    }
  }

  lemma {:induction false} VisitRootsSorts(g: Graph, roots: seq<string>, i: nat, order: seq<string>)
    requires i == 0 && order == [] && Enumerates(roots, g.Keys)
    ensures var r := VisitRoots(g, roots, i, order); r.Ok? ==> IsTopoOrder(g, r.value)
  {
    VisitRootsFinishes(g, roots, 0, []);
  }

  // ---------------------------------------------------------------------------
  // Failure means a cycle, and a cycle means failure
  // ---------------------------------------------------------------------------

  /** `p` is a closed walk: each element depends on the next, and the last on the first. */
  predicate IsCycle(g: Graph, p: seq<string>) {
    && |p| >= 1
    && (forall i :: 0 <= i < |p| ==> p[i] in g)
    && (forall i :: 0 <= i < |p| - 1 ==> p[i + 1] in g[p[i]])
    && p[0] in g[p[|p| - 1]]
  }

  ghost predicate HasCycle(g: Graph) {
    exists p :: IsCycle(g, p)
  }

  /** A walk along dependency edges. */
  predicate IsWalk(g: Graph, p: seq<string>) {
    (forall i :: 0 <= i < |p| ==> p[i] in g) && (forall i :: 0 <= i < |p| - 1 ==> p[i + 1] in g[p[i]])
  }

  lemma {:induction false} WalkClosesCycle(g: Graph, path: seq<string>, i: nat)
    requires IsWalk(g, path) && i < |path| && path[i] in g[path[|path| - 1]]
    ensures IsCycle(g, path[i..])
  {
    var c := path[i..];
    assert forall k :: 0 <= k < |c| ==> c[k] == path[i + k];
  }

  lemma {:induction false} WalkExtends(g: Graph, path: seq<string>, node: string)
    requires IsWalk(g, path) && node in g && (|path| > 0 ==> node in g[path[|path| - 1]])
    ensures IsWalk(g, path + [node])
  {
  }

  /** The nodes in progress form the walk from the root to the current node, so meeting one
      of them again closes a cycle. */
  lemma {:induction false} VisitNodeFailsOnCycle(g: Graph, node: string, temp: set<string>, order: seq<string>, path: seq<string>)
    requires node in g && temp <= g.Keys
    requires IsWalk(g, path) && (forall x :: x in temp <==> x in path)
    requires |path| > 0 ==> node in g[path[|path| - 1]]
    ensures VisitNode(g, node, temp, order).Err? ==> HasCycle(g)
    decreases |g.Keys - temp|, 0
  {
    if node in order {
    } else if node in temp {
      var i :| 0 <= i < |path| && path[i] == node;
      WalkClosesCycle(g, path, i);
    } else {
      assert g.Keys - temp == (g.Keys - (temp + {node})) + {node};
      WalkExtends(g, path, node);
      VisitDepsFailsOnCycle(g, node, 0, temp + {node}, order, path + [node]);
    }
  }

  lemma {:induction false} VisitDepsFailsOnCycle(g: Graph, node: string, j: nat, temp: set<string>, order: seq<string>, path: seq<string>)
    requires node in g && j <= |g[node]| && temp <= g.Keys
    requires IsWalk(g, path) && (forall x :: x in temp <==> x in path)
    requires |path| > 0 && path[|path| - 1] == node
    ensures VisitDeps(g, node, j, temp, order).Err? ==> HasCycle(g)
    decreases |g.Keys - temp|, 1, |g[node]| - j
  {
    if j < |g[node]| {
      var dep := g[node][j];
      if dep !in g {
        VisitDepsFailsOnCycle(g, node, j + 1, temp, order, path);
      } else {
        VisitNodeFailsOnCycle(g, dep, temp, order, path);
        var r := VisitNode(g, dep, temp, order);
        if r.Ok? {
          VisitDepsFailsOnCycle(g, node, j + 1, temp, r.value, path);
        }
      }
    }
  }

  lemma {:induction false} VisitRootsFailsOnCycle(g: Graph, roots: seq<string>, i: nat, order: seq<string>)
    requires i <= |roots| && forall k :: 0 <= k < |roots| ==> roots[k] in g
    ensures VisitRoots(g, roots, i, order).Err? ==> HasCycle(g)
    decreases |roots| - i
  {
    if i < |roots| {
      if roots[i] in order {
        VisitRootsFailsOnCycle(g, roots, i + 1, order);
      } else {
        VisitNodeFailsOnCycle(g, roots[i], {}, order, []);
        var r := VisitNode(g, roots[i], {}, order);
        if r.Ok? {
          VisitRootsFailsOnCycle(g, roots, i + 1, r.value);
        }
      }
    }
  }

  /** In a topological order every edge goes backwards, so walking a cycle would have to
      return to a strictly earlier position than where it started. */
  lemma {:induction false} TopoOrderHasNoCycle(g: Graph, s: seq<string>, p: seq<string>)
    requires IsTopoOrder(g, s)
    ensures !IsCycle(g, p)
  {
    if IsCycle(g, p) {
      // the closing edge goes back from the last element to the first ...
      EdgeGoesBack(g, s, p[|p| - 1], p[0]);
      // ... but walking along the cycle only ever moves further back from the first
      if |p| > 1 {
        EarlierAlongWalk(g, s, p, |p| - 1);
      }
    }
  }

  function IndexOf(s: seq<string>, x: string): (i: nat)
    requires x in s
    ensures i < |s| && s[i] == x
  {
    if s[0] == x then 0 else 1 + IndexOf(s[1..], x)
  }

  /** An edge from `a` to the key `b` means `b` is listed before `a`. */
  lemma {:induction false} EdgeGoesBack(g: Graph, s: seq<string>, a: string, b: string)
    requires IsTopoOrder(g, s) && a in g && b in g && b in g[a]
    ensures IndexOf(s, b) < IndexOf(s, a)
  {
    var i := IndexOf(s, a);
    assert b in s[..i];
    var j :| 0 <= j < i && s[..i][j] == b;
    SameElementSameIndex(s, IndexOf(s, b), j);
  }

  lemma {:induction false} SameElementSameIndex(s: seq<string>, i: nat, j: nat)
    requires NoDup(s) && i < |s| && j < |s| && s[i] == s[j]
    ensures i == j
  {
  }

  lemma {:induction false} EarlierAlongWalk(g: Graph, s: seq<string>, p: seq<string>, k: nat)
    requires IsTopoOrder(g, s) && IsCycle(g, p) && 1 <= k < |p|
    ensures IndexOf(s, p[k]) < IndexOf(s, p[0])
    decreases k
  {
    EdgeGoesBack(g, s, p[k - 1], p[k]);
    if k > 1 {
      EarlierAlongWalk(g, s, p, k - 1);
    }
  }

  /** The sort succeeds exactly when the graph has no cycle, whatever order the keys come
      in; a success lists every key once, after the keys it depends on. */
  lemma {:induction false} TopoSortCorrect(g: Graph, ord: KeyOrder)
    requires ValidOrder(ord)
    ensures TopoSort(g, ord).Ok? <==> !HasCycle(g)
    ensures TopoSort(g, ord).Ok? ==> IsTopoOrder(g, TopoSort(g, ord).value)
  {
    var roots := ord(g.Keys);
    assert Enumerates(roots, g.Keys);
    VisitRootsFailsOnCycle(g, roots, 0, []);
    var r := TopoSort(g, ord);
    if r.Ok? {
      forall p ensures !IsCycle(g, p) {
        TopoOrderHasNoCycle(g, r.value, p);
      }
    }
  }
}
