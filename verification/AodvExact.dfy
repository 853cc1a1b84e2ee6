/**
 * Which tables always leave an exact forward path: the condition of AodvAsked on the start is not only enough but
 * needed.
 */
module AodvExact {
  import opened Sequences
  import opened Words
  import opened Options
  import opened AodvNode
  import opened AodvFlood
  import opened AodvReply
  import opened AodvForward
  import opened AodvAsked
  import opened AodvChains

  // ----- the condition on the start is needed -----

  /** A relay without an entry for the destination. */
  ghost predicate Spare(nodes: map<Addr, NodeState>, d: Discovery, y: Addr) {
    Relay(nodes, d, y) && d.dst !in nodes[y].table
  }

  /** A relay that is not next to the destination has an entry that does not yield to the answer. */
  ghost predicate Refuses(nodes: map<Addr, NodeState>, d: Discovery, x: Addr, no: u32) {
    x in nodes && d.dst in nodes[x].table && !Yields(nodes[x].table[d.dst], no)
  }

  lemma RefusedChain(nodes: map<Addr, NodeState>, d: Discovery, p: seq<Addr>, i: nat, no: u32)
    requires Chain(nodes, d, p) && i < |p| - 1 && Refuses(nodes, d, p[i], no)
    ensures !ChainYields(nodes, d, p, no)
  {
    assert Relay(nodes, d, p[i + 1]) && After(d, p, i) == p[i + 1];
    HeardYields(nodes[p[i]], p[i + 1], d.dst, no);
  }

  /** Such a relay spoils the path. */
  lemma Spoils(nodes: map<Addr, NodeState>, d: Discovery, destinationOnly: bool, p: seq<Addr>, i: nat)
    requires Quiet(nodes, d) && NoRoute(nodes, d) && Chain(nodes, d, p) && i < |p| - 1
    requires Refuses(nodes, d, p[i], AnswerTo(Collected(nodes, d, p), nodes[d.dst].seqNo))
    ensures !AlwaysExact(nodes, d, destinationOnly)
  {
    RefusedChain(nodes, d, p, i, AnswerTo(Collected(nodes, d, p), nodes[d.dst].seqNo));
    hide ChainYields, NoRoute, Chain, Collected, AnswerTo, Refuses, AlwaysExact;
    ChainSpoils(nodes, d, destinationOnly, p);
  }

  lemma CollectedPlus(nodes: map<Addr, NodeState>, d: Discovery, p: seq<Addr>, x: Addr)
    ensures Collected(nodes, d, p + [x]) == Raise(Collected(nodes, d, p), KnownAt(nodes, d, x))
  {
    assert (p + [x])[..|p|] == p;
  }

  /** A relay x, and a spare one between it and the destination. */
  lemma OneSpoils(nodes: map<Addr, NodeState>, d: Discovery, destinationOnly: bool, x: Addr, y: Addr, z: Addr)
    requires Quiet(nodes, d) && NoRoute(nodes, d) && Spare(nodes, d, y) && Spare(nodes, d, z) && y != z
    requires Relay(nodes, d, x) && d.dst in nodes[x].table
    requires var a := Raise(Known(nodes[d.orig], d.dst), Known(nodes[x], d.dst));
      Refuses(nodes, d, x, AnswerTo(a, nodes[d.dst].seqNo))
    ensures !AlwaysExact(nodes, d, destinationOnly)
  {
    hide Yields, AnswerTo, AlwaysExact, Collected, Refuses;
    var first := Known(nodes[d.orig], d.dst);
    assert Collected(nodes, d, []) == first by { NothingCollected(nodes, d); }
    if nodes[x].table[d.dst].nextHop == d.orig {
      var p := [z, x, y];
      assert [] + [z] == [z] && [z] + [x] == [z, x] && [z, x] + [y] == p;
      CollectedPlus(nodes, d, [], z);
      CollectedPlus(nodes, d, [z], x);
      CollectedPlus(nodes, d, [z, x], y);
      Spoils(nodes, d, destinationOnly, p, 1);
    } else {
      var p := [x, y];
      assert [] + [x] == [x] && [x] + [y] == p;
      CollectedPlus(nodes, d, [], x);
      CollectedPlus(nodes, d, [x], y);
      Spoils(nodes, d, destinationOnly, p, 0);
    }
  }

  lemma NothingCollected(nodes: map<Addr, NodeState>, d: Discovery)
    requires d.orig in nodes
    ensures Collected(nodes, d, []) == Known(nodes[d.orig], d.dst)
  {
  }

  /** One relay refuses the destination's own number, another the next one: whatever is answered spoils the path. */
  lemma EitherSpoils(nodes: map<Addr, NodeState>, d: Discovery, destinationOnly: bool, p: seq<Addr>, i: nat, j: nat)
    requires Quiet(nodes, d) && NoRoute(nodes, d) && Chain(nodes, d, p) && i < |p| - 1 && j < |p| - 1
    requires Refuses(nodes, d, p[i], nodes[d.dst].seqNo) && Refuses(nodes, d, p[j], Inc32(nodes[d.dst].seqNo))
    ensures !AlwaysExact(nodes, d, destinationOnly)
  {
    assert forall k :: 0 <= k < |p| ==> Relay(nodes, d, p[k]);
    hide AlwaysExact, Refuses, Collected, Chain;
    Spoils(nodes, d, destinationOnly, p,
           if AnswerTo(Collected(nodes, d, p), nodes[d.dst].seqNo) == nodes[d.dst].seqNo then i else j);
  }

  lemma TwoSpoil(nodes: map<Addr, NodeState>, d: Discovery, destinationOnly: bool, x: Addr, o: Addr, y: Addr, z: Addr)
    requires Quiet(nodes, d) && NoRoute(nodes, d) && Spare(nodes, d, y) && Spare(nodes, d, z) && y != z
    requires Relay(nodes, d, x) && Relay(nodes, d, o) && x != o
    requires Refuses(nodes, d, x, nodes[d.dst].seqNo) && Refuses(nodes, d, o, Inc32(nodes[d.dst].seqNo))
    ensures !AlwaysExact(nodes, d, destinationOnly)
  {
    hide AlwaysExact, Yields;
    var viaX, viaO := nodes[x].table[d.dst].nextHop, nodes[o].table[d.dst].nextHop;
    if viaO != d.orig && viaX != o {
      EitherSpoils(nodes, d, destinationOnly, [o, x, y], 1, 0);
    } else if viaX != d.orig && viaO != x {
      EitherSpoils(nodes, d, destinationOnly, [x, o, y], 0, 1);
    } else if viaO == d.orig {
      EitherSpoils(nodes, d, destinationOnly, [z, o, x, y], 2, 1);
    } else {
      EitherSpoils(nodes, d, destinationOnly, [o, z, x, y], 2, 0);
    }
  }

  /** How entries around the two possible numbers refuse them. */
  lemma WhoRefuses(nodes: map<Addr, NodeState>, d: Discovery, x: Addr)
    requires d.orig in nodes && d.dst in nodes && Relay(nodes, d, x) && Known(nodes[x], d.dst).Some?
    ensures var own, next, v := nodes[d.dst].seqNo, Inc32(nodes[d.dst].seqNo), Known(nodes[x], d.dst).value;
      && (SignedDiff(v, next) > 0 ==> Refuses(nodes, d, x, own))
      && (SignedDiff(next, v) < 0 ==> Refuses(nodes, d, x, next))
      && (SignedDiff(v, next) > 0 ==> SignedDiff(next, v) < 0)
      && (v == next ==> Refuses(nodes, d, x, own))
  {
  }

  lemma AheadSpoils(nodes: map<Addr, NodeState>, d: Discovery, destinationOnly: bool, x: Addr, y: Addr, z: Addr)
    requires Quiet(nodes, d) && NoRoute(nodes, d) && Spare(nodes, d, y) && Spare(nodes, d, z) && y != z
    requires Relay(nodes, d, x) && Known(nodes[x], d.dst).Some?
    requires SignedDiff(Known(nodes[x], d.dst).value, Inc32(nodes[d.dst].seqNo)) > 0
    ensures !AlwaysExact(nodes, d, destinationOnly)
  {
    WhoRefuses(nodes, d, x);
    hide AlwaysExact, NoRoute, Spare, Refuses, SignedDiff, Inc32, Raise;
    OneSpoils(nodes, d, destinationOnly, x, y, z);
  }

  /** The next number is known to x, and o is not behind it: half the circle away, if it is not ahead. */
  lemma OppositeSpoils(nodes: map<Addr, NodeState>, d: Discovery, destinationOnly: bool, x: Addr, o: Addr, y: Addr,
                       z: Addr)
    requires Quiet(nodes, d) && NoRoute(nodes, d) && Spare(nodes, d, y) && Spare(nodes, d, z) && y != z
    requires x in nodes && x != d.dst && Known(nodes[x], d.dst) == Some(Inc32(nodes[d.dst].seqNo))
    requires Relay(nodes, d, o) && Known(nodes[o], d.dst).Some?
    requires var next, v := Inc32(nodes[d.dst].seqNo), Known(nodes[o], d.dst).value;
      SignedDiff(next, v) < 0 && SignedDiff(v, next) <= 0
    ensures !AlwaysExact(nodes, d, destinationOnly)
  {
    WhoRefuses(nodes, d, o);
    if x != d.orig {
      WhoRefuses(nodes, d, x);
      assert x != o;
    }
    hide AlwaysExact, NoRoute, Spare, Refuses, Inc32;
    if x == d.orig {
      OneSpoils(nodes, d, destinationOnly, o, y, z);
    } else {
      TwoSpoil(nodes, d, destinationOnly, x, o, y, z);
    }
  }

  /** The next number is known to a relay, but the originator already asks for one that it does not replace. */
  lemma FirstSpoils(nodes: map<Addr, NodeState>, d: Discovery, destinationOnly: bool, x: Addr, y: Addr, z: Addr)
    requires Quiet(nodes, d) && NoRoute(nodes, d) && Spare(nodes, d, y) && Spare(nodes, d, z) && y != z
    requires Relay(nodes, d, x) && Known(nodes[x], d.dst) == Some(Inc32(nodes[d.dst].seqNo))
    requires Known(nodes[d.orig], d.dst).Some?
    requires SignedDiff(Inc32(nodes[d.dst].seqNo), Known(nodes[d.orig], d.dst).value) < 0
    ensures !AlwaysExact(nodes, d, destinationOnly)
  {
    WhoRefuses(nodes, d, x);
    hide AlwaysExact, NoRoute, Spare, Refuses, Inc32;
    OneSpoils(nodes, d, destinationOnly, x, y, z);
  }

  lemma IncoherentSpoils(nodes: map<Addr, NodeState>, d: Discovery, destinationOnly: bool, y: Addr, z: Addr)
    requires Quiet(nodes, d) && NoRoute(nodes, d) && Spare(nodes, d, y) && Spare(nodes, d, z) && y != z
    requires !Coherent(nodes, d)
    ensures !AlwaysExact(nodes, d, destinationOnly)
  {
    hide AlwaysExact, NoRoute, Spare;
    var next := Inc32(nodes[d.dst].seqNo);
    if x :| Relay(nodes, d, x) && Known(nodes[x], d.dst).Some? && SignedDiff(Known(nodes[x], d.dst).value, next) > 0 {
      AheadSpoils(nodes, d, destinationOnly, x, y, z);
    } else if Held(nodes, d, next) && !NoneNewer(nodes, d, next) {
      var x :| x in nodes && x != d.dst && Known(nodes[x], d.dst) == Some(next);
      var o :| Relay(nodes, d, o) && Known(nodes[o], d.dst).Some? && SignedDiff(next, Known(nodes[o], d.dst).value) < 0;
      OppositeSpoils(nodes, d, destinationOnly, x, o, y, z);
    } else {
      var x :| Relay(nodes, d, x) && Known(nodes[x], d.dst) == Some(next);
      FirstSpoils(nodes, d, destinationOnly, x, y, z);
    }
  }

  /**
   * Exactly which tables always leave an exact path, where no relay has a route to answer with and two relays
   * have no entry at all: the coherent ones.
   */
  lemma AlwaysExactIff(nodes: map<Addr, NodeState>, d: Discovery, destinationOnly: bool, y: Addr, z: Addr)
    requires Quiet(nodes, d) && NoRoute(nodes, d) && Spare(nodes, d, y) && Spare(nodes, d, z) && y != z
    ensures AlwaysExact(nodes, d, destinationOnly) <==> Coherent(nodes, d)
  {
    if Coherent(nodes, d) {
      assert AnswersOlder(nodes, d, nodes[d.dst].seqNo) && AnswersOlder(nodes, d, Inc32(nodes[d.dst].seqNo));
      hide Quiet, Coherent, AnswersOlder, NoRoute, Launch, Legal, ExactAfter;
      forall reach, steps | reach <= nodes.Keys - {d.orig}
          && Legal(Launch(nodes, d, destinationOnly, reach), d, steps)
        ensures ExactAfter(nodes, d, destinationOnly, reach, steps)
      {
        ForwardPathFromStart(nodes, d, destinationOnly, reach, steps);
      }
    } else {
      IncoherentSpoils(nodes, d, destinationOnly, y, z);
    }
  }

  // ----- an input on which the path is not exact -----

  /** Four nodes in a row; the second remembers the last with a newer number and a broken route elsewhere. */
  function FourNodes(): map<Addr, NodeState> {
    map[1 := NodeState(1, map[], {}, 0, 0),
        2 := NodeState(2, map[4 := Route(true, 5, 3, 9, INVALID)], {}, 0, 0),
        3 := NodeState(3, map[], {}, 0, 0),
        4 := NodeState(4, map[], {}, 0, 0)]
  }

  /** Node 2 keeps its entry, and its next hop is not node 3. */
  lemma NotExact() returns (steps: seq<Step>)
    ensures Quiet(FourNodes(), Discovery(1, 4, 1))
    ensures Legal(Launch(FourNodes(), Discovery(1, 4, 1), false, {2}), Discovery(1, 4, 1), steps)
    ensures var s := Execute(Launch(FourNodes(), Discovery(1, 4, 1), false, {2}), Discovery(1, 4, 1), steps);
      && 4 in s.nodes && 4 in s.trails && s.trails[4] == [4, 3, 2]
      && !ExactPath(s.nodes, s.trails[4], 4, s.nodes[4].seqNo)
  {
    FourQuiet();
    var nodes, d, p := FourNodes(), Discovery(1, 4, 1), [2, 3];
    FourRefuses(nodes, d, p);
    hide Quiet, NoRoute, Chain, Launch, Execute, Legal, ExactPath, ChainYields, Collected, FourNodes, Known;
    assert [4] + Back(p, 0) == [4, 3, 2];
    steps := ChainRun(nodes, d, false, p);
  }

  lemma FourRefuses(nodes: map<Addr, NodeState>, d: Discovery, p: seq<Addr>)
    requires nodes == FourNodes() && d == Discovery(1, 4, 1) && p == [2, 3] && Chain(nodes, d, p)
    ensures 4 in nodes && AnswerTo(Collected(nodes, d, p), nodes[4].seqNo) == 0 && !ChainYields(nodes, d, p, 0)
  {
    CollectedNext(nodes, d, p, 0);
    CollectedNext(nodes, d, p, 1);
    assert p[..0] == [] && p[..2] == p && p[..1] == [2];
    RefusedChain(nodes, d, p, 0, 0);
  }

  lemma FourQuiet()
    ensures Quiet(FourNodes(), Discovery(1, 4, 1)) && NoRoute(FourNodes(), Discovery(1, 4, 1))
    ensures Chain(FourNodes(), Discovery(1, 4, 1), [2, 3])
  {
    var nodes, d := FourNodes(), Discovery(1, 4, 1);
    assert nodes.Keys == {1, 2, 3, 4};
    FourChain(nodes, d, [2, 3]);
  }

  lemma FourChain(nodes: map<Addr, NodeState>, d: Discovery, p: seq<Addr>)
    requires nodes == FourNodes() && d == Discovery(1, 4, 1) && p == [2, 3]
    ensures Chain(nodes, d, p)
  {
    assert PassesOn(nodes[2], 4, 1) && PassesOn(nodes[3], 4, 2);
    hide PassesOn;
    forall i | 0 <= i < |p| ensures Relay(nodes, d, p[i]) && PassesOn(nodes[p[i]], 4, Before(d, p, i)) {
      assert i == 0 || i == 1;
    }
  }
}
