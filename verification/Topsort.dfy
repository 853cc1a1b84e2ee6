/** Walks along (parent, child) pairs. */
module Walks {
  import opened Sequences

  type Node(==, !new)
  type Pairs = seq<(Node, Node)>

  /** The pairs, and items that need not occur in any of them. */
  datatype Graph = Graph(items: set<Node>, pairs: Pairs)

  function OfPairs(pairs: Pairs): Graph { Graph({}, pairs) }

  ghost function Prefix(g: Graph, n: nat): Graph
    requires n <= |g.pairs|
  {
    Graph(g.items, g.pairs[..n])
  }

  ghost function Plus(g: Graph, parent: Node, child: Node): Graph { Graph(g.items, g.pairs + [(parent, child)]) }

  ghost function NodesOf(g: Graph): set<Node> {
    g.items + (set i | 0 <= i < |g.pairs| :: g.pairs[i].0) + (set i | 0 <= i < |g.pairs| :: g.pairs[i].1)
  }

  ghost predicate Walk(g: Graph, w: seq<Node>) {
    && (forall i :: 0 <= i < |w| ==> w[i] in NodesOf(g))
    && (forall i :: 0 <= i < |w| - 1 ==> (w[i], w[i + 1]) in g.pairs)
  }

  /** Some walk of exactly k edges ends at x. */
  ghost predicate HasWalk(g: Graph, x: Node, k: nat) {
    if k == 0 then x in NodesOf(g)
    else exists p :: (p, x) in g.pairs && HasWalk(g, p, k - 1)
  }

  /** The longest walk ending at x has exactly k edges. */
  ghost predicate LongestWalk(g: Graph, x: Node, k: nat) {
    HasWalk(g, x, k) && !HasWalk(g, x, k + 1)
  }

  ghost predicate Endless(g: Graph, x: Node) {
    forall k: nat :: HasWalk(g, x, k)
  }

  ghost predicate WalkBetween(g: Graph, w: seq<Node>, a: Node, b: Node) {
    w != [] && Walk(g, w) && w[0] == a && w[|w| - 1] == b
  }

  ghost predicate OnCycle(g: Graph, c: Node) {
    exists w :: |w| >= 2 && WalkBetween(g, w, c, c)
  }

  ghost predicate Reaches(g: Graph, c: Node, x: Node) {
    exists w :: WalkBetween(g, w, c, x)
  }

  /** x lies on a cycle or can be reached from one. */
  ghost predicate Downstream(g: Graph, x: Node) {
    exists c :: OnCycle(g, c) && Reaches(g, c, x)
  }

  lemma PairNodes(g: Graph, p: Node, x: Node)
    requires (p, x) in g.pairs
    ensures p in NodesOf(g) && x in NodesOf(g)
  {
    var i :| 0 <= i < |g.pairs| && g.pairs[i] == (p, x);
    assert g.pairs[i].0 == p && g.pairs[i].1 == x;
  }

  lemma {:induction false} HasWalkShorter(g: Graph, x: Node, m: nat, k: nat)
    requires HasWalk(g, x, k) && m <= k
    ensures HasWalk(g, x, m)
    decreases k
  {
    if m < k {
      var p :| (p, x) in g.pairs && HasWalk(g, p, k - 1);
      PairNodes(g, p, x);
      if m > 0 {
        HasWalkShorter(g, p, m - 1, k - 1);
      }
    }
  }

  lemma {:induction false} WalkOf(g: Graph, x: Node, k: nat) returns (w: seq<Node>)
    requires HasWalk(g, x, k)
    ensures Walk(g, w) && |w| == k + 1 && w[k] == x
  {
    HasWalkShorter(g, x, 0, k);
    if k == 0 {
      w := [x];
    } else {
      var p :| (p, x) in g.pairs && HasWalk(g, p, k - 1);
      var v := WalkOf(g, p, k - 1);
      w := v + [x];
    }
  }

  ghost predicate HasParentIn(g: Graph, s: set<Node>, x: Node) {
    exists p :: p in s && (p, x) in g.pairs
  }

  /** A set in which every node has a parent again supplies walks of every length. */
  lemma {:induction false} SelfFeeding(g: Graph, s: set<Node>, x: Node, k: nat)
    requires forall y {:trigger HasParentIn(g, s, y)} :: y in s ==> HasParentIn(g, s, y)
    requires x in s
    ensures HasWalk(g, x, k)
  {
    assert HasParentIn(g, s, x);
    var p :| p in s && (p, x) in g.pairs;
    if k == 0 {
      PairNodes(g, p, x);
    } else {
      SelfFeeding(g, s, p, k - 1);
    }
  }

  /** Walking back one edge from a node downstream of a cycle stays downstream. */
  lemma DownstreamParent(g: Graph, x: Node) returns (p: Node)
    requires Downstream(g, x)
    ensures Downstream(g, p) && (p, x) in g.pairs
  {
    var c :| OnCycle(g, c) && Reaches(g, c, x);
    var w :| WalkBetween(g, w, c, x);
    if |w| == 1 {
      w :| |w| >= 2 && WalkBetween(g, w, c, c);
    }
    var n := |w| - 1;
    p := w[n - 1];
    assert WalkBetween(g, w[..n], c, p);
  }

  lemma {:induction false} DownstreamHasWalk(g: Graph, x: Node, k: nat)
    requires Downstream(g, x)
    ensures HasWalk(g, x, k)
  {
    var p := DownstreamParent(g, x);
    if k == 0 {
      PairNodes(g, p, x);
    } else {
      DownstreamHasWalk(g, p, k - 1);
    }
  }

  /** Pigeonhole: a walk with more nodes than there are runs round a cycle. */
  lemma LongWalkDownstream(g: Graph, x: Node)
    requires HasWalk(g, x, |NodesOf(g)|)
    ensures Downstream(g, x)
  {
    var w := WalkOf(g, x, |NodesOf(g)|);
    var i, j := Repetition(w, NodesOf(g));
    var round, tail := w[i..j + 1], w[i..];
    assert WalkBetween(g, round, w[i], w[i]);
    assert WalkBetween(g, tail, w[i], x);
    assert OnCycle(g, w[i]) && Reaches(g, w[i], x);
  }

  /** Walks of every length end exactly at the nodes on, or downstream of, a cycle. */
  lemma EndlessIffDownstream(g: Graph, x: Node)
    ensures Endless(g, x) <==> Downstream(g, x)
  {
    if Endless(g, x) {
      LongWalkDownstream(g, x);
    } else if Downstream(g, x) {
      forall k: nat ensures HasWalk(g, x, k) {
        DownstreamHasWalk(g, x, k);
      }
    }
  }
}

/** Dependency sorting of bindings/python/topsort.py. */
module Topsort {
  import opened Sequences
  import opened Walks

  /** The two dictionaries every function of the file works on. */
  type Counts = map<Node, int>
  type Children = map<Node, seq<Node>>

  datatype Outcome =
    | Sorted(answer: seq<Node>)
    | CycleError(answer: seq<Node>, numParents: Counts, children: Children)

  datatype LevelsEnd =
    | StopIteration
    | LevelsCycleError(numParents: Counts, children: Children)

  /** Number of pairs that put x below a parent outside done. */
  ghost function Waiting(g: Graph, x: Node, done: set<Node>): nat
    decreases |g.pairs|
  {
    if g.pairs == [] then 0
    else
      var n := |g.pairs| - 1;
      Waiting(Prefix(g, n), x, done) + if g.pairs[n].1 == x && g.pairs[n].0 !in done then 1 else 0
  }

  /** The children of p, in the order of the pairs, duplicates included. */
  ghost function ChildrenOf(g: Graph, p: Node): seq<Node>
    decreases |g.pairs|
  {
    if g.pairs == [] then []
    else
      var n := |g.pairs| - 1;
      ChildrenOf(Prefix(g, n), p) + if g.pairs[n].0 == p then [g.pairs[n].1] else []
  }

  function Kids(children: Children, p: Node): seq<Node> {
    if p in children then children[p] else []
  }

  /** Every remaining node is a key; its count is its waiting pairs plus the occurrences in left. */
  ghost predicate Counted(g: Graph, numParents: Counts, done: set<Node>, left: multiset<Node>) {
    && numParents.Keys == NodesOf(g) - done
    && forall x :: x in numParents ==> numParents[x] == Waiting(g, x, done) + left[x]
  }

  /** Every remaining parent has its list of children. */
  ghost predicate Listed(g: Graph, children: Children, done: set<Node>) {
    forall p :: Kids(children, p) == if p in done then [] else ChildrenOf(g, p)
  }

  /** What the dictionaries hold once the nodes in done have been removed. */
  ghost predicate Tables(g: Graph, numParents: Counts, children: Children, done: set<Node>) {
    Counted(g, numParents, done, multiset{}) && Listed(g, children, done)
  }

  ghost predicate AllParentsIn(g: Graph, x: Node, done: set<Node>) {
    forall p :: (p, x) in g.pairs ==> p in done
  }

  /** Only nodes whose parents are all gone have been removed. */
  ghost predicate Closed(g: Graph, done: set<Node>) {
    done <= NodesOf(g) && forall x :: x in done ==> AllParentsIn(g, x, done)
  }

  lemma {:induction false} WaitingZero(g: Graph, x: Node, done: set<Node>)
    ensures Waiting(g, x, done) == 0 <==> AllParentsIn(g, x, done)
    decreases |g.pairs|
  {
    if g.pairs != [] {
      var n := |g.pairs| - 1;
      WaitingZero(Prefix(g, n), x, done);
      assert g.pairs == g.pairs[..n] + [g.pairs[n]];
    }
  }

  lemma {:induction false} WaitingRemove(g: Graph, x: Node, done: set<Node>, p: Node)
    requires p !in done
    ensures Waiting(g, x, done) == Waiting(g, x, done + {p}) + multiset(ChildrenOf(g, p))[x]
    decreases |g.pairs|
  {
    if g.pairs != [] {
      WaitingRemove(Prefix(g, |g.pairs| - 1), x, done, p);
    }
  }

  lemma {:induction false} ChildrenAreChildren(g: Graph, p: Node)
    ensures forall x :: x in ChildrenOf(g, p) <==> (p, x) in g.pairs
    decreases |g.pairs|
  {
    if g.pairs != [] {
      var n := |g.pairs| - 1;
      ChildrenAreChildren(Prefix(g, n), p);
      assert g.pairs == g.pairs[..n] + [g.pairs[n]];
    }
  }

  lemma StartRemoving(g: Graph, numParents: Counts, done: set<Node>, parent: Node)
    requires Counted(g, numParents, done, multiset{}) && parent in numParents
    ensures Counted(g, numParents - {parent}, done + {parent}, multiset(ChildrenOf(g, parent)))
  {
    forall x | x in numParents - {parent}
      ensures numParents[x] == Waiting(g, x, done + {parent}) + multiset(ChildrenOf(g, parent))[x]
    {
      WaitingRemove(g, x, done, parent);
    }
  }

  /** A child about to be decremented is still a key: the lookup cannot miss. */
  lemma ChildStillCounted(g: Graph, done: set<Node>, parent: Node, child: Node)
    requires child in ChildrenOf(g, parent)
    requires Closed(g, done) && parent !in done && AllParentsIn(g, parent, done)
    ensures (parent, child) in g.pairs && child in NodesOf(g) - done - {parent}
  {
    ChildrenAreChildren(g, parent);
    PairNodes(g, parent, child);
  }

  /** One decrement keeps the books. */
  lemma Decrement(g: Graph, numParents: Counts, done: set<Node>, left: multiset<Node>, child: Node)
    requires Counted(g, numParents, done, left) && child in left && child in NodesOf(g) - done
    ensures child in numParents && numParents[child] > 0
    ensures Counted(g, numParents[child := numParents[child] - 1], done, left - multiset{child})
  {
  }

  lemma UnlistParent(g: Graph, children: Children, done: set<Node>, parent: Node)
    requires Listed(g, children, done)
    ensures Listed(g, children - {parent}, done + {parent})
  {
  }

  lemma ClosedGrow(g: Graph, done: set<Node>, parent: Node)
    requires Closed(g, done) && parent in NodesOf(g) && AllParentsIn(g, parent, done)
    ensures Closed(g, done + {parent})
  {
  }

  /** Taking parent, a remaining node whose own parents are all gone, out of the tables. */
  lemma ParentOut(g: Graph, numParents: Counts, children: Children, done: set<Node>, parent: Node)
    requires Tables(g, numParents, children, done) && Closed(g, done)
    requires parent in numParents && AllParentsIn(g, parent, done)
    ensures parent !in done && Closed(g, done + {parent})
    ensures Counted(g, numParents - {parent}, done + {parent}, multiset(ChildrenOf(g, parent)))
    ensures Listed(g, children - {parent}, done + {parent})
    ensures Kids(children, parent) == ChildrenOf(g, parent)
    ensures parent !in children ==> children - {parent} == children
  {
    StartRemoving(g, numParents, done, parent);
    ClosedGrow(g, done, parent);
    UnlistParent(g, children, done, parent);
  }

  lemma NodesGrow(g: Graph, parent: Node, child: Node)
    ensures NodesOf(Plus(g, parent, child)) == NodesOf(g) + {parent, child}
  {
    var more := Plus(g, parent, child);
    forall x | x in NodesOf(g) - g.items ensures x in NodesOf(more) {
      var i :| 0 <= i < |g.pairs| && (g.pairs[i].0 == x || g.pairs[i].1 == x);
      assert more.pairs[i] == g.pairs[i];
    }
    assert more.pairs[|g.pairs|] == (parent, child);
  }

  lemma FreshNode(g: Graph, x: Node)
    requires x !in NodesOf(g)
    ensures Waiting(g, x, {}) == 0
  {
    if p :| (p, x) in g.pairs {
      PairNodes(g, p, x);
    }
    WaitingZero(g, x, {});
  }

  /** What one more pair does to the counts and the lists. */
  lemma AddPair(g: Graph, parent: Node, child: Node)
    ensures var more := Plus(g, parent, child);
      && NodesOf(more) == NodesOf(g) + {parent, child}
      && (forall x :: Waiting(more, x, {}) == Waiting(g, x, {}) + if x == child then 1 else 0)
      && (forall p :: ChildrenOf(more, p) == ChildrenOf(g, p) + if p == parent then [child] else [])
      && (forall x :: x !in NodesOf(g) ==> Waiting(g, x, {}) == 0)
  {
    var more := Plus(g, parent, child);
    assert Prefix(more, |g.pairs|) == g;
    NodesGrow(g, parent, child);
    forall x | x !in NodesOf(g) ensures Waiting(g, x, {}) == 0 {
      FreshNode(g, x);
    }
  }

  /** What one turn of the counting loop makes of the parent counts. */
  function Bump(numParents: Counts, parent: Node, child: Node): Counts {
    var n1 := if parent in numParents then numParents else numParents[parent := 0];
    var n2 := if child in n1 then n1 else n1[child := 0];
    n2[child := n2[child] + 1]
  }

  lemma BumpCounts(g: Graph, numParents: Counts, parent: Node, child: Node)
    requires Counted(g, numParents, {}, multiset{})
    ensures Counted(Plus(g, parent, child), Bump(numParents, parent, child), {}, multiset{})
  {
    var more, bumped := Plus(g, parent, child), Bump(numParents, parent, child);
    AddPair(g, parent, child);
    assert bumped.Keys == NodesOf(more);
    forall x | x in bumped ensures bumped[x] == Waiting(more, x, {}) {
      assert Waiting(more, x, {}) == Waiting(g, x, {}) + if x == child then 1 else 0;
      assert x !in numParents ==> Waiting(g, x, {}) == 0;
    }
  }

  lemma BumpChildren(g: Graph, children: Children, parent: Node, child: Node)
    requires Listed(g, children, {})
    ensures Listed(Plus(g, parent, child), children[parent := Kids(children, parent) + [child]], {})
  {
    AddPair(g, parent, child);
  }

  /** The counting loop shared by topsort and topsort_levels. */
  method BuildTables(pairlist: Pairs) returns (numParents: Counts, children: Children)
    ensures Tables(OfPairs(pairlist), numParents, children, {})
  {
    numParents, children := map[], map[];
    ghost var seen := OfPairs([]);
    assert Counted(seen, numParents, {}, multiset{}) && Listed(seen, children, {});
    hide Counted, Listed, Bump, NodesOf;
    for i := 0 to |pairlist|
      invariant seen == OfPairs(pairlist[..i])
      invariant Counted(seen, numParents, {}, multiset{}) && Listed(seen, children, {})
    {
      var (parent, child) := pairlist[i];
      assert pairlist[..i + 1] == pairlist[..i] + [pairlist[i]];
      BumpCounts(seen, numParents, parent, child);
      BumpChildren(seen, children, parent, child);
      seen := Plus(seen, parent, child);
      numParents := Bump(numParents, parent, child);
      children := children[parent := Kids(children, parent) + [child]];
    }
    assert pairlist[..|pairlist|] == pairlist;
  }

  // ----- topsort -----

  /** Position by position, every parent of a node of the answer stands before it. */
  ghost predicate ParentsFirst(g: Graph, answer: seq<Node>) {
    forall j :: 0 <= j < |answer| ==> AllParentsIn(g, answer[j], Elements(answer[..j]))
  }

  ghost function Elements(s: seq<Node>): set<Node> {
    set x | x in s
  }

  lemma ElementsSnoc(s: seq<Node>, i: nat)
    requires i < |s|
    ensures Elements(s[..i + 1]) == Elements(s[..i]) + {s[i]}
  {
    assert s[..i + 1] == s[..i] + [s[i]];
  }

  /** The queue part of the answer holds exactly the remaining nodes with no parent left. */
  ghost predicate QueueIsReady(numParents: Counts, queue: seq<Node>) {
    forall x :: x in queue <==> x in numParents && numParents[x] == 0
  }

  ghost predicate Sound(g: Graph, answer: seq<Node>) {
    Distinct(answer) && Elements(answer) <= NodesOf(g) && ParentsFirst(g, answer)
  }

  /** The keys with count 0, in whatever order the dictionary lists them. */
  method ReadyKeys(numParents: Counts) returns (ready: seq<Node>)
    ensures Distinct(ready) && QueueIsReady(numParents, ready)
  {
    ready := [];
    var pending := numParents.Keys;
    while pending != {}
      invariant pending <= numParents.Keys && Distinct(ready)
      invariant forall x :: x in ready <==> x in numParents.Keys - pending && numParents[x] == 0
      decreases pending
    {
      var x :| x in pending;
      pending := pending - {x};
      if numParents[x] == 0 {
        assert x !in ready;
        ready := ready + [x];
      }
    }
  }

  /** A child whose count has just reached 0 joins the answer after all its parents. */
  lemma JoinAnswer(g: Graph, numParents: Counts, answer: seq<Node>, done: set<Node>, left: multiset<Node>,
                   child: Node)
    requires Sound(g, answer) && done <= Elements(answer)
    requires Counted(g, numParents, done, left)
    requires child in numParents && numParents[child] == 0 && child !in answer
    ensures Sound(g, answer + [child])
  {
    WaitingZero(g, child, done);
    var more := answer + [child];
    forall j | 0 <= j < |more| ensures AllParentsIn(g, more[j], Elements(more[..j])) {
      if j < |answer| {
        assert more[..j] == answer[..j];
      } else {
        assert more[..j] == answer;
      }
    }
  }

  /** Decrementing a positive count keeps the queue right, provided the child is appended at 0. */
  lemma QueueAfterDecrement(numParents: Counts, queue: seq<Node>, child: Node)
    requires QueueIsReady(numParents, queue) && child in numParents && numParents[child] > 0
    ensures child !in queue
    ensures var n := numParents[child] - 1;
      QueueIsReady(numParents[child := n], if n == 0 then queue + [child] else queue)
  {
  }

  /** done is the set of the first n nodes of the answer. */
  ghost predicate FirstPart(answer: seq<Node>, n: nat, done: set<Node>) {
    n <= |answer| && done == Elements(answer[..n])
  }

  lemma FirstPartFacts(answer: seq<Node>, n: nat, done: set<Node>, more: seq<Node>)
    requires FirstPart(answer, n, done) && answer <= more
    ensures FirstPart(more, n, done) && done <= Elements(answer)
    ensures forall x :: x in answer <==> x in done || x in answer[n..]
    ensures n < |answer| ==> FirstPart(answer, n + 1, done + {answer[n]})
  {
    assert more[..n] == answer[..n];
    assert answer == answer[..n] + answer[n..];
    if n < |answer| {
      ElementsSnoc(answer, n);
    }
  }

  /** One turn of the loop over the children of the parent just taken out. */
  method DropChild(ghost g: Graph, ghost parent: Node, child: Node, ghost left: multiset<Node>, ghost n: nat,
                   ghost done: set<Node>, numParents: Counts, answer: seq<Node>)
      returns (numParents': Counts, answer': seq<Node>)
    requires parent !in done && Closed(g, done) && AllParentsIn(g, parent, done)
    requires FirstPart(answer, n, done + {parent})
    requires child in left && child in ChildrenOf(g, parent)
    requires Sound(g, answer) && Counted(g, numParents, done + {parent}, left)
    requires QueueIsReady(numParents, answer[n..])
    ensures answer <= answer' && Sound(g, answer') && QueueIsReady(numParents', answer'[n..])
    ensures Counted(g, numParents', done + {parent}, left - multiset{child})
  {
    ghost var queue := answer[n..];
    FirstPartFacts(answer, n, done + {parent}, answer);
    ChildStillCounted(g, done, parent, child);
    hide Counted, Closed, Sound, FirstPart, AllParentsIn, NodesOf;
    Decrement(g, numParents, done + {parent}, left, child);
    QueueAfterDecrement(numParents, queue, child);
    numParents' := numParents[child := numParents[child] - 1];
    answer' := answer;
    if numParents'[child] == 0 {
      JoinAnswer(g, numParents', answer, done + {parent}, left - multiset{child}, child);
      answer' := answer + [child];
      assert answer'[n..] == queue + [child];
    }
  }

  /** The whole loop over the children of the parent just taken out. */
  method DropChildren(ghost g: Graph, ghost parent: Node, kids: seq<Node>, ghost n: nat,
                      ghost done: set<Node>, numParents: Counts, answer: seq<Node>)
      returns (numParents': Counts, answer': seq<Node>)
    requires parent !in done && Closed(g, done) && AllParentsIn(g, parent, done)
    requires FirstPart(answer, n, done + {parent}) && kids == ChildrenOf(g, parent)
    requires Sound(g, answer) && Counted(g, numParents, done + {parent}, multiset(kids))
    requires QueueIsReady(numParents, answer[n..])
    ensures answer <= answer' && Sound(g, answer') && QueueIsReady(numParents', answer'[n..])
    ensures Counted(g, numParents', done + {parent}, multiset{})
  {
    numParents', answer' := numParents, answer;
    assert kids[0..] == kids;
    for j := 0 to |kids|
      invariant answer <= answer' && Sound(g, answer')
      invariant Counted(g, numParents', done + {parent}, multiset(kids[j..]))
      invariant QueueIsReady(numParents', answer'[n..])
    {
      assert kids[j] in kids && kids[j..] == [kids[j]] + kids[j + 1..];
      FirstPartFacts(answer, n, done + {parent}, answer');
      numParents', answer' :=
        DropChild(g, parent, kids[j], multiset(kids[j..]), n, done, numParents', answer');
    }
  }

  lemma ReadyToTake(g: Graph, i: nat, done: set<Node>, numParents: Counts, answer: seq<Node>)
    requires i < |answer| && FirstPart(answer, i, done)
    requires Sound(g, answer) && QueueIsReady(numParents, answer[i..])
    requires Counted(g, numParents, done, multiset{})
    ensures answer[i] in numParents && AllParentsIn(g, answer[i], done)
    ensures QueueIsReady(numParents - {answer[i]}, answer[i + 1..])
  {
    assert answer[i..] == [answer[i]] + answer[i + 1..];
    WaitingZero(g, answer[i], done);
  }

  /** One turn of the main loop of topsort: nothing it looks up or deletes is missing. */
  method TakeOut(ghost g: Graph, i: nat, ghost done: set<Node>, numParents: Counts, children: Children,
                 answer: seq<Node>)
      returns (numParents': Counts, children': Children, answer': seq<Node>)
    requires i < |answer| && FirstPart(answer, i, done)
    requires Sound(g, answer) && QueueIsReady(numParents, answer[i..])
    requires Tables(g, numParents, children, done) && Closed(g, done)
    ensures answer <= answer' && Sound(g, answer') && QueueIsReady(numParents', answer'[i + 1..])
    ensures Tables(g, numParents', children', done + {answer[i]}) && Closed(g, done + {answer[i]})
  {
    var parent := answer[i];
    assert Counted(g, numParents, done, multiset{});
    hide Counted, Listed, Closed, Sound, QueueIsReady, FirstPart, AllParentsIn, ChildrenOf;
    ReadyToTake(g, i, done, numParents, answer);
    FirstPartFacts(answer, i, done, answer);
    ParentOut(g, numParents, children, done, parent);
    numParents' := numParents - {parent};
    children', answer' := children, answer;
    if parent in children' {
      numParents', answer' := DropChildren(g, parent, children'[parent], i + 1, done, numParents', answer');
      children' := children' - {parent};
    }
  }

  lemma LeftoverIsDownstream(g: Graph, numParents: Counts, done: set<Node>)
    requires Counted(g, numParents, done, multiset{}) && Closed(g, done)
    requires forall x :: x in numParents ==> numParents[x] != 0
    requires forall x :: x in done ==> !Endless(g, x)
    ensures forall x :: x in numParents <==> Downstream(g, x)
  {
    forall x | x in numParents ensures HasParentIn(g, numParents.Keys, x) {
      WaitingZero(g, x, done);
      var p :| (p, x) in g.pairs && p !in done;
      PairNodes(g, p, x);
    }
    forall x ensures x in numParents <==> Downstream(g, x) {
      EndlessIffDownstream(g, x);
      if x in numParents {
        forall k: nat ensures HasWalk(g, x, k) {
          SelfFeeding(g, numParents.Keys, x, k);
        }
      } else if x !in done {
        assert !HasWalk(g, x, 0);
      }
    }
  }

  /** A node placed at position j has no walk of more than j edges ending at it. */
  lemma {:induction false} PlacedIsBounded(g: Graph, answer: seq<Node>, j: nat)
    requires ParentsFirst(g, answer) && j < |answer|
    ensures !HasWalk(g, answer[j], j + 1)
  {
    if HasWalk(g, answer[j], j + 1) {
      var p :| (p, answer[j]) in g.pairs && HasWalk(g, p, j);
      var i :| 0 <= i < j && answer[i] == p;
      HasWalkShorter(g, p, i + 1, j);
      PlacedIsBounded(g, answer, i);
    }
  }

  lemma OnCycleIsDownstream(g: Graph, c: Node)
    requires OnCycle(g, c)
    ensures Downstream(g, c)
  {
    var w :| |w| >= 2 && WalkBetween(g, w, c, c);
    assert Reaches(g, c, c);
  }

  /** The verdict of topsort: what is left over, and when anything is. */
  lemma Verdict(g: Graph, numParents: Counts, answer: seq<Node>)
    requires Sound(g, answer) && Closed(g, Elements(answer)) && QueueIsReady(numParents, [])
    requires Counted(g, numParents, Elements(answer), multiset{})
    ensures forall x :: x in numParents <==> Downstream(g, x)
    ensures numParents == map[] <==> forall x :: !OnCycle(g, x)
  {
    forall x | x in Elements(answer) ensures !Endless(g, x) {
      var j :| 0 <= j < |answer| && answer[j] == x;
      PlacedIsBounded(g, answer, j);
    }
    assert forall x :: x in numParents ==> x !in [] && numParents[x] != 0;
    LeftoverIsDownstream(g, numParents, Elements(answer));
    EmptyIffAcyclic(g, numParents.Keys);
  }

  lemma EmptyIffAcyclic(g: Graph, left: set<Node>)
    requires forall x :: x in left <==> Downstream(g, x)
    ensures left == {} <==> forall x :: !OnCycle(g, x)
  {
    forall c | OnCycle(g, c) ensures c in left {
      OnCycleIsDownstream(g, c);
    }
    if x :| x in left {
      var c :| OnCycle(g, c) && Reaches(g, c, x);
    }
  }

  /** The main loop: the answer grows while it is walked over. */
  method Drain(ghost g: Graph, numParents: Counts, children: Children, ready: seq<Node>)
      returns (numParents': Counts, children': Children, answer: seq<Node>)
    requires Tables(g, numParents, children, {}) && QueueIsReady(numParents, ready) && Distinct(ready)
    ensures Sound(g, answer) && QueueIsReady(numParents', [])
    ensures Tables(g, numParents', children', Elements(answer)) && Closed(g, Elements(answer))
  {
    numParents', children', answer := numParents, children, ready;
    forall j | 0 <= j < |answer| ensures AllParentsIn(g, answer[j], {}) {
      assert answer[j] in answer;
      WaitingZero(g, answer[j], {});
    }
    assert answer[0..] == answer;
    ghost var done: set<Node> := {};
    var i := 0;
    while i < |answer|
      invariant i <= |answer| && Sound(g, answer) && FirstPart(answer, i, done)
      invariant QueueIsReady(numParents', answer[i..])
      invariant Tables(g, numParents', children', done) && Closed(g, done)
      decreases |NodesOf(g)| - i
    {
      DistinctBound(answer, NodesOf(g));
      ghost var before := answer;
      numParents', children', answer := TakeOut(g, i, done, numParents', children', answer);
      FirstPartFacts(before, i, done, answer);
      FirstPartFacts(answer, i, done, answer);
      done := done + {answer[i]};
      i := i + 1;
    }
    assert answer[..i] == answer && answer[i..] == [];
  }

  /**
   * The answer lists every node once, all parents before their children; the error lists exactly
   * the nodes on a cycle or downstream of one, and is raised exactly when there is a cycle.
   */
  ghost predicate SortSpec(g: Graph, r: Outcome) {
    && Distinct(r.answer) && ParentsFirst(g, r.answer)
    && (r.Sorted? <==> forall x :: !OnCycle(g, x))
    && match r {
         case Sorted(answer) =>
           Elements(answer) == NodesOf(g)
         case CycleError(answer, numParents, children) =>
           && (forall x :: x in numParents <==> Downstream(g, x))
           && Elements(answer) == NodesOf(g) - numParents.Keys
           && Tables(g, numParents, children, Elements(answer))
       }
  }

  lemma MeetsSpec(g: Graph, numParents: Counts, children: Children, answer: seq<Node>)
    requires Sound(g, answer) && QueueIsReady(numParents, [])
    requires Tables(g, numParents, children, Elements(answer)) && Closed(g, Elements(answer))
    ensures SortSpec(g, if numParents != map[] then CycleError(answer, numParents, children) else Sorted(answer))
  {
    hide Closed, QueueIsReady, Downstream, OnCycle, ParentsFirst, Listed, AllParentsIn, HasWalk, NodesOf, Waiting;
    Verdict(g, numParents, answer);
    assert Elements(answer) == NodesOf(g) - numParents.Keys;
  }

  method TopologicalSort(pairlist: Pairs) returns (r: Outcome)
    ensures SortSpec(OfPairs(pairlist), r)
  {
    var numParents, children := BuildTables(pairlist);
    var answer := ReadyKeys(numParents);
    numParents, children, answer := Drain(OfPairs(pairlist), numParents, children, answer);
    MeetsSpec(OfPairs(pairlist), numParents, children, answer);
    if numParents != map[] {
      return CycleError(answer, numParents, children);
    }
    return Sorted(answer);
  }

  // ----- topsort_levels -----

  lemma OneKidLess(kids: seq<Node>, j: nat)
    requires j < |kids|
    ensures multiset(kids[j..]) - multiset{kids[j]} == multiset(kids[j + 1..]) && kids[j] in multiset(kids[j..])
  {
    assert kids[j..] == [kids[j]] + kids[j + 1..];
  }

  method DecrementAll(ghost g: Graph, ghost done: set<Node>, ghost parent: Node, kids: seq<Node>,
                      numParents: Counts)
      returns (numParents': Counts)
    requires Closed(g, done) && parent !in done && AllParentsIn(g, parent, done)
    requires kids == ChildrenOf(g, parent)
    requires Counted(g, numParents, done + {parent}, multiset(kids))
    ensures Counted(g, numParents', done + {parent}, multiset{})
  {
    hide Counted, Closed, AllParentsIn, ChildrenOf;
    numParents' := numParents;
    ghost var left := multiset(kids);
    assert kids[0..] == kids;
    for j := 0 to |kids|
      invariant left == multiset(kids[j..])
      invariant Counted(g, numParents', done + {parent}, left)
    {
      assert kids[j] in kids;
      ChildStillCounted(g, done, parent, kids[j]);
      OneKidLess(kids, j);
      Decrement(g, numParents', done + {parent}, left, kids[j]);
      numParents' := numParents'[kids[j] := numParents'[kids[j]] - 1];
      left := left - multiset{kids[j]};
    }
    assert left == multiset{};
  }

  method TakeOutOne(ghost g: Graph, ghost done: set<Node>, parent: Node, numParents: Counts, children: Children)
      returns (numParents': Counts, children': Children)
    requires Tables(g, numParents, children, done) && Closed(g, done)
    requires parent in numParents && AllParentsIn(g, parent, done)
    ensures Tables(g, numParents', children', done + {parent}) && Closed(g, done + {parent})
  {
    ParentOut(g, numParents, children, done, parent);
    hide Counted, Listed, Closed, AllParentsIn, ChildrenOf;
    numParents' := numParents - {parent};
    children' := children;
    if parent in children' {
      numParents' := DecrementAll(g, done, parent, children'[parent], numParents');
      children' := children' - {parent};
    }
  }

  ghost predicate ReadyLevel(g: Graph, numParents: Counts, done: set<Node>, level: seq<Node>) {
    Distinct(level) && forall x :: x in level ==> x in numParents && AllParentsIn(g, x, done)
  }

  /** Taking out the nodes of one level, none of which has a parent in the level. */
  method TakeOutLevel(ghost g: Graph, ghost done: set<Node>, level: seq<Node>,
                      numParents: Counts, children: Children)
      returns (numParents': Counts, children': Children)
    requires Tables(g, numParents, children, done) && Closed(g, done)
    requires ReadyLevel(g, numParents, done, level)
    ensures Tables(g, numParents', children', done + Elements(level))
    ensures Closed(g, done + Elements(level))
  {
    numParents', children' := numParents, children;
    ghost var gone := done;
    for i := 0 to |level|
      invariant gone == done + Elements(level[..i])
      invariant Tables(g, numParents', children', gone) && Closed(g, gone)
    {
      assert level[i] in level && level[i] !in level[..i];
      numParents', children' := TakeOutOne(g, gone, level[i], numParents', children');
      gone := gone + {level[i]};
      ElementsSnoc(level, i);
    }
    assert level[..|level|] == level;
  }

  /** The nodes whose longest walk has fewer than k edges. */
  ghost predicate BelowLevel(g: Graph, done: set<Node>, k: nat) {
    forall x :: x in done <==> x in NodesOf(g) && !HasWalk(g, x, k)
  }

  /** A remaining node is ready in round k exactly when its longest walk has k edges. */
  lemma ReadyIsLevel(g: Graph, done: set<Node>, k: nat, x: Node)
    requires BelowLevel(g, done, k) && x in NodesOf(g) - done
    ensures Waiting(g, x, done) == 0 <==> LongestWalk(g, x, k)
  {
    WaitingZero(g, x, done);
    if p :| (p, x) in g.pairs && p !in done {
      PairNodes(g, p, x);
      assert HasWalk(g, x, k + 1);
    }
  }

  lemma NextLevel(g: Graph, done: set<Node>, k: nat, level: seq<Node>)
    requires BelowLevel(g, done, k)
    requires forall x :: x in level <==> LongestWalk(g, x, k)
    ensures BelowLevel(g, done + Elements(level), k + 1)
  {
    forall x | HasWalk(g, x, k + 1) ensures HasWalk(g, x, k) && HasWalk(g, x, 0) {
      HasWalkShorter(g, x, k, k + 1);
      HasWalkShorter(g, x, 0, k + 1);
    }
    forall x | HasWalk(g, x, k) ensures x in NodesOf(g) {
      HasWalkShorter(g, x, 0, k);
    }
  }

  /** The keys with count 0 in round k are level k, and their parents are all gone. */
  lemma ReadyKeysAreLevel(g: Graph, numParents: Counts, done: set<Node>, k: nat, ready: seq<Node>)
    requires Counted(g, numParents, done, multiset{}) && BelowLevel(g, done, k)
    requires QueueIsReady(numParents, ready)
    ensures forall x :: x in ready <==> LongestWalk(g, x, k)
    ensures forall x :: x in ready ==> x in numParents && AllParentsIn(g, x, done)
  {
    forall x ensures x in ready <==> LongestWalk(g, x, k) {
      if HasWalk(g, x, k) {
        HasWalkShorter(g, x, 0, k);
        ReadyIsLevel(g, done, k, x);
      }
    }
    forall x | x in ready ensures AllParentsIn(g, x, done) {
      WaitingZero(g, x, done);
    }
  }

  lemma {:induction false} LongestWalkIsUnique(g: Graph, x: Node, k: nat, m: nat)
    requires LongestWalk(g, x, k) && HasWalk(g, x, m)
    ensures m <= k
  {
    if m > k {
      HasWalkShorter(g, x, k + 1, m);
    }
  }

  /** The verdict of topsort_levels, when no remaining node is ready. */
  lemma LevelsVerdict(g: Graph, numParents: Counts, done: set<Node>, k: nat)
    requires Counted(g, numParents, done, multiset{}) && Closed(g, done) && BelowLevel(g, done, k)
    requires QueueIsReady(numParents, [])
    ensures forall x :: x in numParents <==> Downstream(g, x)
    ensures numParents == map[] <==> forall x :: !OnCycle(g, x)
    ensures forall x, m: nat :: LongestWalk(g, x, m) ==> m < k
  {
    assert forall x :: x in numParents ==> x !in [] && numParents[x] != 0;
    LeftoverIsDownstream(g, numParents, done);
    EmptyIffAcyclic(g, numParents.Keys);
    forall x, m: nat | LongestWalk(g, x, m) ensures m < k {
      HasWalkShorter(g, x, 0, m);
      EndlessIffDownstream(g, x);
      assert x in done;
      if m >= k {
        HasWalkShorter(g, x, k, m);
      }
    }
  }

  /** Level k lists, once each, the nodes whose longest incoming walk has k edges. */
  ghost predicate LevelsAreDepths(g: Graph, levels: seq<seq<Node>>) {
    && (forall k :: 0 <= k < |levels| ==> levels[k] != [] && Distinct(levels[k]))
    && (forall k, x :: 0 <= k < |levels| ==> (x in levels[k] <==> LongestWalk(g, x, k)))
  }

  lemma AppendLevel(g: Graph, levels: seq<seq<Node>>, level: seq<Node>)
    requires LevelsAreDepths(g, levels) && level != [] && Distinct(level)
    requires forall x :: x in level <==> LongestWalk(g, x, |levels|)
    ensures LevelsAreDepths(g, levels + [level])
  {
    var more := levels + [level];
    forall k, x | 0 <= k < |more| ensures x in more[k] <==> LongestWalk(g, x, k) {
      if k < |levels| {
        assert more[k] == levels[k];
      }
    }
  }

  /** What one round of the generator does to the levels. */
  lemma NextRound(g: Graph, numParents: Counts, done: set<Node>, levels: seq<seq<Node>>, level: seq<Node>)
    requires Counted(g, numParents, done, multiset{}) && BelowLevel(g, done, |levels|)
    requires LevelsAreDepths(g, levels) && level != [] && Distinct(level) && QueueIsReady(numParents, level)
    ensures ReadyLevel(g, numParents, done, level) && level[0] in numParents && level[0] in Elements(level)
    ensures BelowLevel(g, done + Elements(level), |levels| + 1)
    ensures LevelsAreDepths(g, levels + [level])
  {
    ReadyKeysAreLevel(g, numParents, done, |levels|, level);
    assert level[0] in level;
    NextLevel(g, done, |levels|, level);
    AppendLevel(g, levels, level);
  }

  lemma LevelsStart(g: Graph)
    ensures Closed(g, {}) && BelowLevel(g, {}, 0) && LevelsAreDepths(g, [])
  {
  }

  /** One round of the generator: the ready nodes are the next level, and are taken out. */
  method OneRound(ghost g: Graph, ghost done: set<Node>, ghost levels: seq<seq<Node>>, numParents: Counts,
                  children: Children)
      returns (level: seq<Node>, numParents': Counts, children': Children)
    requires Tables(g, numParents, children, done) && Closed(g, done)
    requires BelowLevel(g, done, |levels|) && LevelsAreDepths(g, levels)
    ensures level == [] ==> QueueIsReady(numParents, []) && numParents' == numParents && children' == children
    ensures level != [] ==> Tables(g, numParents', children', done + Elements(level))
    ensures level != [] ==> Closed(g, done + Elements(level)) && BelowLevel(g, done + Elements(level), |levels| + 1)
    ensures level != [] ==> LevelsAreDepths(g, levels + [level]) && numParents'.Keys < numParents.Keys
  {
    assert Counted(g, numParents, done, multiset{});
    hide Counted, Listed, Closed, BelowLevel, LevelsAreDepths, ReadyLevel, QueueIsReady, NodesOf;
    level := ReadyKeys(numParents);
    numParents', children' := numParents, children;
    if level != [] {
      NextRound(g, numParents, done, levels, level);
      numParents', children' := TakeOutLevel(g, done, level, numParents, children);
      FewerKeys(g, numParents, numParents', done, level);
    }
  }

  lemma FewerKeys(g: Graph, numParents: Counts, numParents': Counts, done: set<Node>, level: seq<Node>)
    requires Counted(g, numParents, done, multiset{}) && level != [] && level[0] in numParents
    requires Counted(g, numParents', done + Elements(level), multiset{}) && level[0] in Elements(level)
    ensures numParents'.Keys < numParents.Keys
  {
  }

  /** The loop of the generator, until no remaining node is ready. */
  method AllLevels(ghost g: Graph, numParents0: Counts, children0: Children)
      returns (levels: seq<seq<Node>>, numParents: Counts, children: Children, ghost done: set<Node>)
    requires Tables(g, numParents0, children0, {})
    ensures Tables(g, numParents, children, done) && Closed(g, done) && QueueIsReady(numParents, [])
    ensures BelowLevel(g, done, |levels|) && LevelsAreDepths(g, levels)
  {
    hide Tables, Closed, BelowLevel, LevelsAreDepths, QueueIsReady, Elements;
    numParents, children := numParents0, children0;
    levels, done := [], {};
    LevelsStart(g);
    while true
      invariant Tables(g, numParents, children, done) && Closed(g, done)
      invariant BelowLevel(g, done, |levels|) && LevelsAreDepths(g, levels)
      decreases numParents.Keys
    {
      var levelParents;
      levelParents, numParents, children := OneRound(g, done, levels, numParents, children);
      if levelParents == [] {
        break;
      }
      done := done + Elements(levelParents);
      levels := levels + [levelParents];
    }
  }

  /**
   * Level k holds exactly the nodes whose longest incoming walk has k edges. The generator fails
   * exactly when nodes are left over, and those are the nodes on or downstream of a cycle.
   */
  method TopsortLevelsCore(ghost g: Graph, numParents0: Counts, children0: Children)
      returns (levels: seq<seq<Node>>, end: LevelsEnd)
    requires Tables(g, numParents0, children0, {})
    ensures LevelsAreDepths(g, levels)
    ensures forall x, k: nat :: LongestWalk(g, x, k) ==> k < |levels|
    ensures end.StopIteration? <==> forall x :: !OnCycle(g, x)
    ensures end.LevelsCycleError? ==> forall x :: x in end.numParents <==> Downstream(g, x)
  {
    var numParents, children;
    ghost var done;
    levels, numParents, children, done := AllLevels(g, numParents0, children0);
    LevelsVerdict(g, numParents, done, |levels|);
    end := if numParents != map[] then LevelsCycleError(numParents, children) else StopIteration;
  }

  method TopsortLevels(pairlist: Pairs) returns (levels: seq<seq<Node>>, end: LevelsEnd)
    ensures LevelsAreDepths(OfPairs(pairlist), levels)
    ensures forall x, k: nat :: LongestWalk(OfPairs(pairlist), x, k) ==> k < |levels|
    ensures end.StopIteration? <==> forall x :: !OnCycle(OfPairs(pairlist), x)
    ensures end.LevelsCycleError? ==> forall x :: x in end.numParents <==> Downstream(OfPairs(pairlist), x)
  {
    var numParents, children := BuildTables(pairlist);
    levels, end := TopsortLevelsCore(OfPairs(pairlist), numParents, children);
  }

  /** Every pair leads from its level to a strictly higher one. */
  lemma PairsClimb(g: Graph, p: Node, x: Node, i: nat, j: nat)
    requires (p, x) in g.pairs && LongestWalk(g, p, i) && LongestWalk(g, x, j)
    ensures i < j
  {
    assert HasWalk(g, x, i + 1);
    LongestWalkIsUnique(g, x, j, i + 1);
  }
}
