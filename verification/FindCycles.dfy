/** Rotation test of bindings/python/rad_util.py. */
module Rotation {

  /** b is a turned left by k places. */
  ghost predicate RotatedBy<T>(a: seq<T>, b: seq<T>, k: nat) {
    && |a| == |b| && k <= |a|
    && forall i :: 0 <= i < |b| ==> b[i] == a[if i + k < |a| then i + k else i + k - |a|]
  }

  ghost predicate IsRotation<T>(a: seq<T>, b: seq<T>) {
    exists k: nat :: RotatedBy(a, b, k)
  }

  /** The slice of the doubled sequence that the source compares. */
  lemma DoubleSlice<T>(a: seq<T>, b: seq<T>, k: nat)
    requires k <= |a| == |b|
    ensures (a + a)[k..k + |a|] == b <==> RotatedBy(a, b, k)
  {
    var d := (a + a)[k..k + |a|];
    assert forall i :: 0 <= i < |d| ==> d[i] == a[if i + k < |a| then i + k else i + k - |a|];
    if RotatedBy(a, b, k) {
      assert d == b;
    }
  }

  /** The source fails with IndexError on two empty sequences, so that call is excluded. */
  method IsRotated<T(==)>(seq1: seq<T>, seq2: seq<T>) returns (r: bool)
    requires |seq1| == |seq2| ==> seq2 != []
    ensures r <==> IsRotation(seq1, seq2)
  {
    if |seq1| != |seq2| {
      return false;
    }
    var startIndexes: seq<nat> := [];
    var headItem := seq2[0];
    for index1 := 0 to |seq1|
      invariant forall k :: k in startIndexes <==> 0 <= k < index1 && seq1[k] == headItem
    {
      if seq1[index1] == headItem {
        startIndexes := startIndexes + [index1];
      }
    }
    var doubleSeq1 := seq1 + seq1;
    for i := 0 to |startIndexes|
      invariant forall j :: 0 <= j < i ==> !RotatedBy(seq1, seq2, startIndexes[j])
    {
      var k := startIndexes[i];
      assert k in startIndexes;
      DoubleSlice(seq1, seq2, k);
      if doubleSeq1[k..k + |seq1|] == seq2 {
        return true;
      }
    }
    NoOffset(seq1, seq2);
    return false;
  }

  /** Turning a non-empty sequence by its whole length is turning it by nothing. */
  lemma RotationOffset<T>(a: seq<T>, b: seq<T>) returns (k: nat)
    requires IsRotation(a, b) && a != []
    ensures k < |a| && RotatedBy(a, b, k) && a[k] == b[0]
  {
    k :| RotatedBy(a, b, k);
    if k == |a| {
      k := 0;
    }
  }

  /** A rotation puts the head of the second sequence where it occurs in the first. */
  lemma NoOffset<T>(a: seq<T>, b: seq<T>)
    requires a != [] && b != []
    requires forall k :: 0 <= k < |a| && a[k] == b[0] ==> !RotatedBy(a, b, k)
    ensures !IsRotation(a, b)
  {
    if IsRotation(a, b) {
      var _ := RotationOffset(a, b);
    }
  }

  lemma RotationSymmetric<T>(a: seq<T>, b: seq<T>)
    requires IsRotation(a, b)
    ensures IsRotation(b, a)
  {
    var k: nat :| RotatedBy(a, b, k);
    assert RotatedBy(b, a, |a| - k);
  }

  lemma RotationTransitive<T>(a: seq<T>, b: seq<T>, c: seq<T>)
    requires IsRotation(a, b) && IsRotation(b, c)
    ensures IsRotation(a, c)
  {
    var k: nat :| RotatedBy(a, b, k);
    var m: nat :| RotatedBy(b, c, m);
    assert RotatedBy(a, c, if k + m <= |a| then k + m else k + m - |a|);
  }
}

/** Cycle enumeration of bindings/python/topsort.py. */
module FindCycles {
  import opened Sequences
  import opened Rotation

  type Node(==, !new)
  type Graph = map<Node, seq<Node>>

  predicate Edge(g: Graph, u: Node, v: Node) {
    u in g && v in g[u]
  }

  ghost predicate Chain(g: Graph, p: seq<Node>) {
    forall i :: 0 <= i < |p| - 1 ==> Edge(g, p[i], p[i + 1])
  }

  ghost predicate SimplePath(g: Graph, start: Node, p: seq<Node>) {
    p != [] && p[0] == start && Distinct(p) && Chain(g, p)
  }

  /** A simple cycle, written without repeating its first node at the end. */
  ghost predicate SimpleCycle(g: Graph, c: seq<Node>) {
    c != [] && Distinct(c) && Chain(g, c) && Edge(g, c[|c| - 1], c[0])
  }

  ghost predicate Covered(cycles: seq<seq<Node>>, c: seq<Node>) {
    exists i :: 0 <= i < |cycles| && IsRotation(cycles[i], c)
  }

  /** Every cycle that one more edge from the end of q would close has been reported. */
  ghost predicate Closed(g: Graph, cycles: seq<seq<Node>>, q: seq<Node>)
    requires q != []
  {
    forall k :: 0 <= k < |q| && Edge(g, q[|q| - 1], q[k]) ==> Covered(cycles, q[k..])
  }

  ghost predicate OnStack(paths: seq<seq<Node>>, q: seq<Node>) {
    exists j :: 0 <= j < |paths| && paths[j] <= q
  }

  /** What the search from one start node has achieved: each simple path is closed or still to come. */
  ghost predicate Explored(g: Graph, start: Node, paths: seq<seq<Node>>, cycles: seq<seq<Node>>) {
    forall q :: SimplePath(g, start, q) ==> OnStack(paths, q) || Closed(g, cycles, q)
  }

  ghost predicate Reaches(g: Graph, start: Node, v: Node) {
    exists p :: SimplePath(g, start, p) && p[|p| - 1] == v
  }

  /** All simple cycles through v have been reported. */
  ghost predicate Settled(g: Graph, cycles: seq<seq<Node>>, v: Node) {
    forall c :: SimpleCycle(g, c) && v in c ==> Covered(cycles, c)
  }

  ghost predicate OneOfEach(g: Graph, cycles: seq<seq<Node>>) {
    && (forall i :: 0 <= i < |cycles| ==> SimpleCycle(g, cycles[i]))
    && (forall i, j :: 0 <= i < j < |cycles| ==> !IsRotation(cycles[i], cycles[j]))
  }

  ghost function Nodes(g: Graph): set<Node> {
    g.Keys + (set u, v | u in g && v in g[u] :: v)
  }

  // ----- termination: the exact number of paths still to be popped -----

  ghost function Work(g: Graph, p: seq<Node>, fuel: nat): nat
    requires p != []
    decreases fuel, 0, 0
  {
    1 + if fuel == 0 || p[|p| - 1] !in g then 0 else KidsWork(g, p, g[p[|p| - 1]], fuel - 1)
  }

  ghost function KidsWork(g: Graph, p: seq<Node>, kids: seq<Node>, fuel: nat): nat
    requires p != []
    decreases fuel, 1, |kids|
  {
    if kids == [] then 0
    else (if kids[0] in p then 0 else Work(g, p + [kids[0]], fuel)) + KidsWork(g, p, kids[1..], fuel)
  }

  /** The search stack holds simple paths from start, none longer than the number of nodes. */
  ghost predicate GoodStack(g: Graph, start: Node, paths: seq<seq<Node>>) {
    forall j :: 0 <= j < |paths| ==> SimplePath(g, start, paths[j]) && |paths[j]| <= |Nodes(g)|
  }

  ghost function StackWork(g: Graph, start: Node, paths: seq<seq<Node>>): nat
    requires GoodStack(g, start, paths)
  {
    if paths == [] then 0
    else
      var m := |paths| - 1;
      StackWork(g, start, paths[..m]) + Work(g, paths[m], |Nodes(g)| - |paths[m]|)
  }

  lemma StackWorkPush(g: Graph, start: Node, paths: seq<seq<Node>>, p: seq<Node>)
    requires GoodStack(g, start, paths) && SimplePath(g, start, p) && |p| <= |Nodes(g)|
    ensures GoodStack(g, start, paths + [p])
    ensures StackWork(g, start, paths + [p]) == StackWork(g, start, paths) + Work(g, p, |Nodes(g)| - |p|)
  {
    var more := paths + [p];
    assert more[..|more| - 1] == paths;
  }

  lemma SimplePathInNodes(g: Graph, start: Node, p: seq<Node>)
    requires start in g && SimplePath(g, start, p)
    ensures |p| <= |Nodes(g)|
  {
    forall i | 0 <= i < |p| ensures p[i] in Nodes(g) {
      if i > 0 {
        assert Edge(g, p[i - 1], p[i]);
      }
    }
    DistinctBound(p, Nodes(g));
  }

  // ----- the graph argument -----

  /** Extending a simple path by an edge to a fresh node keeps it simple. */
  lemma ExtendPath(g: Graph, start: Node, p: seq<Node>, v: Node)
    requires SimplePath(g, start, p) && Edge(g, p[|p| - 1], v) && v !in p
    ensures SimplePath(g, start, p + [v])
  {
  }

  /** An edge from the end of a simple path back into it closes a simple cycle. */
  lemma CloseCycle(g: Graph, start: Node, p: seq<Node>, k: nat)
    requires SimplePath(g, start, p) && k < |p| && Edge(g, p[|p| - 1], p[k])
    ensures SimpleCycle(g, p[k..])
  {
    var c := p[k..];
    forall i | 0 <= i < |c| - 1 ensures Edge(g, c[i], c[i + 1]) {
      assert Edge(g, p[k + i], p[k + i + 1]);
    }
  }

  lemma RotateCycle(g: Graph, c: seq<Node>, k: nat)
    requires SimpleCycle(g, c) && k < |c|
    ensures SimpleCycle(g, c[k..] + c[..k])
    ensures IsRotation(c, c[k..] + c[..k])
  {
    var d := c[k..] + c[..k];
    assert RotatedBy(c, d, k);
    forall i | 0 <= i < |d| - 1 ensures Edge(g, d[i], d[i + 1]) {
      var m := if i + k < |c| then i + k else i + k - |c|;
      assert d[i] == c[m];
      assert m < |c| - 1 ==> Edge(g, c[m], c[m + 1]);
    }
    assert k > 0 ==> Edge(g, c[k - 1], c[k]);
  }

  /** Where a path first meets a set of nodes. */
  lemma FirstTouch(p: seq<Node>, c: seq<Node>) returns (i: nat)
    requires exists k :: 0 <= k < |p| && p[k] in c
    ensures i < |p| && p[i] in c && forall j :: 0 <= j < i ==> p[j] !in c
  {
    i := 0;
    while p[i] !in c
      invariant i < |p| && (forall j :: 0 <= j < i ==> p[j] !in c)
      invariant exists k :: i <= k < |p| && p[k] in c
      decreases |p| - i
    {
      i := i + 1;
    }
  }

  /** Walk to the first node of a cycle, then go round it. */
  lemma PathRoundCycle(g: Graph, start: Node, p: seq<Node>, i: nat, d: seq<Node>)
    requires SimplePath(g, start, p) && SimpleCycle(g, d)
    requires i < |p| && p[i] == d[0] && forall j :: 0 <= j < i ==> p[j] !in d
    ensures SimplePath(g, start, p[..i] + d)
  {
    var q := p[..i] + d;
    forall m | 0 <= m < |q| - 1 ensures Edge(g, q[m], q[m + 1]) {
      if m < i {
        assert Edge(g, p[m], p[m + 1]);
      } else {
        assert Edge(g, d[m - i], d[m - i + 1]);
      }
    }
    forall m, n | 0 <= m < n < |q| ensures q[m] != q[n] {
      if n >= i {
        assert q[n] == d[n - i] && d[n - i] in d;
      }
    }
  }

  lemma CoveredUpToRotation(cycles: seq<seq<Node>>, c: seq<Node>, d: seq<Node>)
    requires IsRotation(c, d) && Covered(cycles, d)
    ensures Covered(cycles, c)
  {
    var j :| 0 <= j < |cycles| && IsRotation(cycles[j], d);
    RotationSymmetric(c, d);
    RotationTransitive(cycles[j], d, c);
  }

  /** Once every simple path from start is closed, a simple cycle that one of them meets is reported. */
  lemma MetCycleIsCovered(g: Graph, start: Node, cycles: seq<seq<Node>>, p: seq<Node>, i: nat,
                          c: seq<Node>, k: nat)
    requires Explored(g, start, [], cycles)
    requires SimplePath(g, start, p) && SimpleCycle(g, c) && i < |p| && k < |c|
    requires p[i] == c[k] && forall j :: 0 <= j < i ==> p[j] !in c
    ensures Covered(cycles, c)
  {
    RotateCycle(g, c, k);
    var d := c[k..] + c[..k];
    PathRoundCycle(g, start, p, i, d);
    var q := p[..i] + d;
    assert Closed(g, cycles, q);
    assert q[i..] == d && q[i] == d[0] && q[|q| - 1] == d[|d| - 1];
    CoveredUpToRotation(cycles, c, d);
  }

  lemma ReachedNodeIsSettled(g: Graph, start: Node, cycles: seq<seq<Node>>, v: Node)
    requires Explored(g, start, [], cycles) && Reaches(g, start, v)
    ensures Settled(g, cycles, v)
  {
    var p :| SimplePath(g, start, p) && p[|p| - 1] == v;
    forall c | SimpleCycle(g, c) && v in c ensures Covered(cycles, c) {
      var i := FirstTouch(p, c);
      var k :| 0 <= k < |c| && c[k] == p[i];
      MetCycleIsCovered(g, start, cycles, p, i, c, k);
    }
  }

  /** Where a longer simple path goes next. */
  lemma PrefixStep(g: Graph, start: Node, p: seq<Node>, q: seq<Node>)
    requires SimplePath(g, start, p) && SimplePath(g, start, q) && p <= q && p != q
    ensures Edge(g, p[|p| - 1], q[|p|]) && q[|p|] !in p && p + [q[|p|]] <= q
  {
    assert Edge(g, q[|p| - 1], q[|p|]);
  }

  lemma CoveredMonotone(g: Graph, cycles: seq<seq<Node>>, more: seq<seq<Node>>)
    requires cycles <= more
    ensures forall c :: Covered(cycles, c) ==> Covered(more, c)
    ensures forall q :: q != [] && Closed(g, cycles, q) ==> Closed(g, more, q)
    ensures forall v :: Settled(g, cycles, v) ==> Settled(g, more, v)
  {
    forall c | Covered(cycles, c) ensures Covered(more, c) {
      var i :| 0 <= i < |cycles| && IsRotation(cycles[i], c);
      assert more[i] == cycles[i];
    }
  }

  // ----- the enumeration -----

  method IndexOf(path: seq<Node>, child: Node) returns (k: nat)
    requires child in path
    ensures k < |path| && path[k] == child && child !in path[..k]
  {
    k := 0;
    while path[k] != child
      invariant k < |path| && child !in path[..k]
      invariant child in path[k..]
      decreases |path| - k
    {
      k := k + 1;
    }
  }

  lemma NewRepresentative(g: Graph, cycles: seq<seq<Node>>, cycle: seq<Node>)
    requires SimpleCycle(g, cycle) && OneOfEach(g, cycles)
    requires forall j :: 0 <= j < |cycles| ==> !IsRotation(cycles[j], cycle)
    ensures Covered(cycles + [cycle], cycle) && OneOfEach(g, cycles + [cycle])
  {
    var r := cycles + [cycle];
    assert RotatedBy(cycle, cycle, 0);
    assert IsRotation(r[|cycles|], cycle);
  }

  /** The duplicate test and the append: exactly one representative of each rotation class is kept. */
  method AddCycle(g: Graph, cycles: seq<seq<Node>>, cycle: seq<Node>) returns (r: seq<seq<Node>>)
    requires SimpleCycle(g, cycle) && OneOfEach(g, cycles)
    ensures cycles <= r && Covered(r, cycle) && OneOfEach(g, r)
  {
    for i := 0 to |cycles|
      invariant forall j :: 0 <= j < i ==> !IsRotation(cycles[j], cycle)
    {
      var isDup := IsRotated(cycles[i], cycle);
      if isDup {
        return cycles;
      }
    }
    r := cycles + [cycle];
    NewRepresentative(g, cycles, cycle);
  }

  /** Explored, except for the part of the popped path that its children from i on will supply. */
  ghost predicate ExploredFrom(g: Graph, start: Node, paths: seq<seq<Node>>, cycles: seq<seq<Node>>,
                               path: seq<Node>, children: seq<Node>, i: nat)
    requires i <= |children|
  {
    && (forall q | SimplePath(g, start, q) ::
          OnStack(paths, q) || q == path || (path < q && q[|path|] in children[i..]) || Closed(g, cycles, q))
    && (forall k :: 0 <= k < |path| && path[k] in children[..i] ==> Covered(cycles, path[k..]))
  }

  lemma OnStackWhenPushed(paths: seq<seq<Node>>, p: seq<Node>, q: seq<Node>)
    ensures OnStack(paths + [p], q) <==> OnStack(paths, q) || p <= q
  {
    var more := paths + [p];
    if OnStack(paths, q) {
      var j :| 0 <= j < |paths| && paths[j] <= q;
      assert more[j] <= q;
    }
    assert more[|paths|] == p;
  }

  lemma PopStarts(g: Graph, start: Node, rest: seq<seq<Node>>, cycles: seq<seq<Node>>, path: seq<Node>,
                  children: seq<Node>)
    requires SimplePath(g, start, path)
    requires Explored(g, start, rest + [path], cycles)
    requires forall v :: Edge(g, path[|path| - 1], v) ==> v in children
    ensures ExploredFrom(g, start, rest, cycles, path, children, 0)
  {
    forall q | SimplePath(g, start, q) && !OnStack(rest, q) && q != path
               && !(path < q && q[|path|] in children[0..])
      ensures Closed(g, cycles, q)
    {
      OnStackWhenPushed(rest, path, q);
      if path <= q {
        PrefixStep(g, start, path, q);
      }
    }
  }

  lemma PushKeeps(g: Graph, start: Node, paths: seq<seq<Node>>, cycles: seq<seq<Node>>, path: seq<Node>,
                  children: seq<Node>, i: nat)
    requires i < |children| && children[i] !in path && SimplePath(g, start, path)
    requires ExploredFrom(g, start, paths, cycles, path, children, i)
    ensures ExploredFrom(g, start, paths + [path + [children[i]]], cycles, path, children, i + 1)
  {
    var p' := path + [children[i]];
    forall q | SimplePath(g, start, q) && !OnStack(paths + [p'], q) && q != path
               && !(path < q && q[|path|] in children[i + 1..])
      ensures Closed(g, cycles, q)
    {
      OnStackWhenPushed(paths, p', q);
      if path < q && q[|path|] in children[i..] {
        assert q[|path|] == children[i];
      }
    }
  }

  lemma CloseKeeps(g: Graph, start: Node, paths: seq<seq<Node>>, cycles: seq<seq<Node>>,
                   more: seq<seq<Node>>, path: seq<Node>, children: seq<Node>, i: nat, k: nat)
    requires i < |children| && k < |path| && path[k] == children[i] && SimplePath(g, start, path)
    requires ExploredFrom(g, start, paths, cycles, path, children, i)
    requires cycles <= more && Covered(more, path[k..])
    ensures ExploredFrom(g, start, paths, more, path, children, i + 1)
  {
    CoveredMonotone(g, cycles, more);
    forall q | SimplePath(g, start, q) && !OnStack(paths, q) && q != path
               && !(path < q && q[|path|] in children[i + 1..])
      ensures Closed(g, more, q)
    {
      if path < q && q[|path|] in children[i..] {
        PrefixStep(g, start, path, q);
      }
    }
    forall m | 0 <= m < |path| && path[m] in children[..i + 1] ensures Covered(more, path[m..]) {
      assert path[m] in children[..i] || path[m] == children[i];
    }
  }

  lemma ExploredAtEnd(g: Graph, start: Node, paths: seq<seq<Node>>, cycles: seq<seq<Node>>, path: seq<Node>,
                      children: seq<Node>)
    requires path != [] && ExploredFrom(g, start, paths, cycles, path, children, |children|)
    requires forall v :: Edge(g, path[|path| - 1], v) ==> v in children
    ensures Explored(g, start, paths, cycles)
  {
    assert children[..|children|] == children && children[|children|..] == [];
    assert Closed(g, cycles, path);
  }

  /** One child of a popped path: close a cycle, or push the extended path and mark the child. */
  method VisitChild(g: Graph, ghost start: Node, path: seq<Node>, children: seq<Node>, i: nat,
                    paths: seq<seq<Node>>, cycles: seq<seq<Node>>, visited: set<Node>)
      returns (paths': seq<seq<Node>>, cycles': seq<seq<Node>>, visited': set<Node>)
    requires start in g && SimplePath(g, start, path) && GoodStack(g, start, paths)
    requires i < |children| && Edge(g, path[|path| - 1], children[i])
    requires OneOfEach(g, cycles) && ExploredFrom(g, start, paths, cycles, path, children, i)
    ensures GoodStack(g, start, paths')
    ensures cycles <= cycles' && OneOfEach(g, cycles')
    ensures ExploredFrom(g, start, paths', cycles', path, children, i + 1)
    ensures Marked(g, start, visited, visited')
    ensures |path| <= |Nodes(g)|
    ensures children[i] in path ==> paths' == paths
    ensures children[i] !in path ==> 
      |path| < |Nodes(g)| &&
      StackWork(g, start, paths') ==
      StackWork(g, start, paths) + Work(g, path + [children[i]], |Nodes(g)| - |path| - 1)
  {
    paths', cycles', visited' := paths, cycles, visited;
    SimplePathInNodes(g, start, path);
    var child := children[i];
    if child in path {
      var k := IndexOf(path, child);
      CloseCycle(g, start, path, k);
      cycles' := AddCycle(g, cycles, path[k..]);
      CloseKeeps(g, start, paths, cycles, cycles', path, children, i, k);
    } else {
      var longer := path + [child];
      ExtendPath(g, start, path, child);
      SimplePathInNodes(g, start, longer);
      PushKeeps(g, start, paths, cycles, path, children, i);
      StackWorkPush(g, start, paths, longer);
      paths' := paths + [longer];
      visited' := visited + {child};
      assert longer[|longer| - 1] == child;
    }
  }

  ghost predicate Marked(g: Graph, start: Node, visited: set<Node>, visited': set<Node>) {
    visited <= visited' && forall v :: v in visited' - visited ==> Reaches(g, start, v)
  }

  lemma MarkedOn(g: Graph, start: Node, a: set<Node>, b: set<Node>, c: set<Node>)
    requires Marked(g, start, a, b) && Marked(g, start, b, c)
    ensures Marked(g, start, a, c)
  {
  }

  lemma KidsStep(g: Graph, p: seq<Node>, kids: seq<Node>, i: nat, fuel: nat)
    requires p != [] && i < |kids|
    ensures KidsWork(g, p, kids[i..], fuel)
         == (if kids[i] in p then 0 else Work(g, p + [kids[i]], fuel)) + KidsWork(g, p, kids[i + 1..], fuel)
  {
    assert kids[i..][1..] == kids[i + 1..];
  }

  lemma NoKids(g: Graph, p: seq<Node>, kids: seq<Node>, fuel: nat)
    requires p != []
    ensures KidsWork(g, p, kids[|kids|..], fuel) == 0 && kids[0..] == kids
  {
  }

  /** The loop over the children of a popped path. */
  method VisitChildren(g: Graph, ghost start: Node, path: seq<Node>, children: seq<Node>, rest: seq<seq<Node>>,
                       cycles: seq<seq<Node>>, visited: set<Node>)
      returns (paths': seq<seq<Node>>, cycles': seq<seq<Node>>, visited': set<Node>)
    requires start in g && path != [] && SimplePath(g, start, path) && GoodStack(g, start, rest)
    requires path[|path| - 1] in g && children == g[path[|path| - 1]] && |path| <= |Nodes(g)|
    requires OneOfEach(g, cycles) && ExploredFrom(g, start, rest, cycles, path, children, 0)
    ensures GoodStack(g, start, paths') && cycles <= cycles' && OneOfEach(g, cycles')
    ensures ExploredFrom(g, start, paths', cycles', path, children, |children|)
    ensures Marked(g, start, visited, visited')
    ensures |path| == |Nodes(g)| ==> paths' == rest
    ensures |path| < |Nodes(g)| ==>
      StackWork(g, start, paths') == StackWork(g, start, rest) + KidsWork(g, path, children, |Nodes(g)| - |path| - 1)
  {
    hide SimplePath, GoodStack, OneOfEach, ExploredFrom, Reaches, Work, KidsWork, StackWork, Nodes;
    paths', cycles', visited' := rest, cycles, visited;
    ghost var fuel := |Nodes(g)| - |path| - 1;
    if fuel >= 0 {
      NoKids(g, path, children, fuel);
    }
    for i := 0 to |children|
      invariant GoodStack(g, start, paths')
      invariant cycles <= cycles' && OneOfEach(g, cycles') && Marked(g, start, visited, visited')
      invariant ExploredFrom(g, start, paths', cycles', path, children, i)
      invariant fuel >= 0 ==>
        StackWork(g, start, paths') + KidsWork(g, path, children[i..], fuel) ==
        StackWork(g, start, rest) + KidsWork(g, path, children, fuel)
      invariant fuel < 0 ==> paths' == rest
    {
      ghost var before := visited';
      if fuel >= 0 {
        KidsStep(g, path, children, i, fuel);
      }
      paths', cycles', visited' := VisitChild(g, start, path, children, i, paths', cycles', visited');
      MarkedOn(g, start, visited, before, visited');
    }
  }

  /** One turn of the search loop: the popped path is replaced by its one-node extensions. */
  method Expand(g: Graph, ghost start: Node, path: seq<Node>, rest: seq<seq<Node>>,
                cycles: seq<seq<Node>>, visited: set<Node>)
      returns (paths': seq<seq<Node>>, cycles': seq<seq<Node>>, visited': set<Node>)
    requires start in g && SimplePath(g, start, path) && GoodStack(g, start, rest)
    requires OneOfEach(g, cycles) && Explored(g, start, rest + [path], cycles)
    ensures GoodStack(g, start, paths')
    ensures cycles <= cycles' && OneOfEach(g, cycles') && Explored(g, start, paths', cycles')
    ensures visited <= visited' && forall v :: v in visited' - visited ==> Reaches(g, start, v)
    ensures |path| <= |Nodes(g)|
    ensures StackWork(g, start, paths') < StackWork(g, start, rest) + Work(g, path, |Nodes(g)| - |path|)
  {
    assert path != [];
    hide SimplePath, GoodStack, OneOfEach, ExploredFrom, Explored, KidsWork, StackWork, Nodes, Reaches;
    SimplePathInNodes(g, start, path);
    paths', cycles', visited' := rest, cycles, visited;
    var parent := path[|path| - 1];
    if parent !in g {
      PopStarts(g, start, rest, cycles, path, []);
      ExploredAtEnd(g, start, rest, cycles, path, []);
      return;
    }
    var children := g[parent];
    PopStarts(g, start, rest, cycles, path, children);
    paths', cycles', visited' := VisitChildren(g, start, path, children, rest, cycles, visited);
    ExploredAtEnd(g, start, paths', cycles', path, children);
  }

  lemma SearchStarts(g: Graph, start: Node, cycles: seq<seq<Node>>)
    requires start in g
    ensures GoodStack(g, start, [[start]]) && Explored(g, start, [[start]], cycles)
    ensures Reaches(g, start, start)
  {
    var paths := [[start]];
    assert SimplePath(g, start, [start]);
    SimplePathInNodes(g, start, [start]);
    forall q | SimplePath(g, start, q) ensures OnStack(paths, q) {
      assert paths[0] <= q;
    }
  }

  lemma PopTop(g: Graph, start: Node, rest: seq<seq<Node>>, path: seq<Node>)
    requires GoodStack(g, start, rest + [path])
    ensures GoodStack(g, start, rest) && SimplePath(g, start, path) && |path| <= |Nodes(g)|
    ensures StackWork(g, start, rest + [path])
         == StackWork(g, start, rest) + Work(g, path, |Nodes(g)| - |path|)
  {
    var paths := rest + [path];
    assert forall j :: 0 <= j < |rest| ==> rest[j] == paths[j];
    assert paths[|rest|] == path;
    StackWorkPush(g, start, rest, path);
  }

  /** One pop: what Expand does to the whole stack. */
  method Turn(g: Graph, ghost start: Node, paths: seq<seq<Node>>, cycles: seq<seq<Node>>, visited: set<Node>)
      returns (paths': seq<seq<Node>>, cycles': seq<seq<Node>>, visited': set<Node>)
    requires start in g && GoodStack(g, start, paths) && paths != []
    requires OneOfEach(g, cycles) && Explored(g, start, paths, cycles)
    ensures GoodStack(g, start, paths') && StackWork(g, start, paths') < StackWork(g, start, paths)
    ensures cycles <= cycles' && OneOfEach(g, cycles') && Explored(g, start, paths', cycles')
    ensures visited <= visited' && forall v :: v in visited' - visited ==> Reaches(g, start, v)
  {
    var m := |paths| - 1;
    var path, rest := paths[m], paths[..m];
    assert paths == rest + [path];
    PopTop(g, start, rest, path);
    paths', cycles', visited' := Expand(g, start, path, rest, cycles, visited);
  }

  /** The search from one start node: pop a path, expand it, until the stack is empty. */
  method SearchFrom(g: Graph, start: Node, cycles: seq<seq<Node>>, visited: set<Node>)
      returns (cycles': seq<seq<Node>>, visited': set<Node>)
    requires start in g && OneOfEach(g, cycles)
    ensures cycles <= cycles' && OneOfEach(g, cycles') && Settled(g, cycles', start)
    ensures visited <= visited' && forall v :: v in visited' - visited ==> Settled(g, cycles', v)
  {
    cycles', visited' := cycles, visited;
    var paths := [[start]];
    SearchStarts(g, start, cycles);
    while paths != []
      invariant GoodStack(g, start, paths)
      invariant cycles <= cycles' && OneOfEach(g, cycles') && Explored(g, start, paths, cycles')
      invariant visited <= visited' && forall v :: v in visited' - visited ==> Reaches(g, start, v)
      decreases StackWork(g, start, paths)
    {
      paths, cycles', visited' := Turn(g, start, paths, cycles', visited');
    }
    forall v | v in visited' - visited || v == start ensures Settled(g, cycles', v) {
      ReachedNodeIsSettled(g, start, cycles', v);
    }
  }

  /**
   * Exactly one rotation of every simple cycle of the graph, and nothing else, whatever order the
   * dictionary hands out its keys. The nodes already visited are skipped as start nodes.
   */
  method Run(g: Graph) returns (cycles: seq<seq<Node>>)
    ensures forall i :: 0 <= i < |cycles| ==> SimpleCycle(g, cycles[i])
    ensures forall c :: SimpleCycle(g, c) ==> exists i :: 0 <= i < |cycles| && IsRotation(cycles[i], c)
    ensures forall i, j :: 0 <= i < j < |cycles| ==> !IsRotation(cycles[i], cycles[j])
  {
    cycles := [];
    var visitedNodes: set<Node> := {};
    var pending := g.Keys;
    while pending != {}
      invariant pending <= g.Keys && OneOfEach(g, cycles)
      invariant forall v :: v in g.Keys - pending || v in visitedNodes ==> Settled(g, cycles, v)
      decreases pending
    {
      var parent :| parent in pending;
      pending := pending - {parent};
      if parent !in visitedNodes {
        ghost var before := cycles;
        cycles, visitedNodes := SearchFrom(g, parent, cycles, visitedNodes);
        CoveredMonotone(g, before, cycles);
      }
    }
    forall c | SimpleCycle(g, c) ensures Covered(cycles, c) {
      assert c[0] in c && Settled(g, cycles, c[0]) by {
        assert |c| > 1 ==> Edge(g, c[0], c[1]);
      }
    }
  }

  /** The representative of a cycle is unique: two reported rotations of one cycle are one report. */
  lemma ReportedOnce(g: Graph, cycles: seq<seq<Node>>, c: seq<Node>, i: nat, j: nat)
    requires OneOfEach(g, cycles) && i < |cycles| && j < |cycles|
    requires IsRotation(cycles[i], c) && IsRotation(cycles[j], c)
    ensures i == j
  {
    RotationSymmetric(cycles[i], c);
    RotationSymmetric(cycles[j], c);
    RotationTransitive(cycles[i], c, cycles[j]);
    RotationTransitive(cycles[j], c, cycles[i]);
  }
}
