/**
 * The exact condition of AodvForward again, now for discoveries that other nodes answer too: as long as none of
 * their answers displaces an entry that is ahead of the destination's, such an entry stays where it is.
 */
module AodvSteady {
  import opened Sequences
  import opened Words
  import opened Options
  import opened AodvNode
  import opened AodvFlood
  import opened AodvReply
  import opened AodvForward
  import opened AodvAsked
  import ReplyOrder

  /** An entry that a RREP with number no does not replace, because its own number is newer. */
  predicate Ahead(e: Route, no: u32) {
    e.validSeqNo && SignedDiff(no, e.seqNo) < 0
  }

  ghost predicate AheadAt(nodes: map<Addr, NodeState>, d: Discovery, y: Addr, no: u32) {
    Relay(nodes, d, y) && d.dst in nodes[y].table && Ahead(nodes[y].table[d.dst], no)
  }

  /** No relay's entry that is ahead of no is replaced by the number a. */
  ghost predicate Harmless(nodes: map<Addr, NodeState>, d: Discovery, no: u32, a: u32) {
    && SignedDiff(no, a) > 0
    && forall y :: AheadAt(nodes, d, y, no) ==> SignedDiff(a, nodes[y].table[d.dst].seqNo) <= 0
  }

  /** Whoever could answer in the destination's place is harmless. */
  ghost predicate Steady(nodes: map<Addr, NodeState>, d: Discovery, no: u32) {
    forall x :: Relay(nodes, d, x) && d.dst in nodes[x].table ==>
      nodes[x].table[d.dst].validSeqNo && nodes[x].table[d.dst].flag == VALID ==>
        Harmless(nodes, d, no, nodes[x].table[d.dst].seqNo)
  }

  /** Inside one window it is enough that the answers are older. */
  lemma SteadyInWindow(nodes: map<Addr, NodeState>, d: Discovery, no: u32, base: u32)
    requires AnswersOlder(nodes, d, no) && ReplyOrder.InWindow(base, no)
    requires forall y :: Relay(nodes, d, y) && Known(nodes[y], d.dst).Some? ==>
      ReplyOrder.InWindow(base, Known(nodes[y], d.dst).value)
    ensures Steady(nodes, d, no)
  {
    forall x | Relay(nodes, d, x) && d.dst in nodes[x].table && nodes[x].table[d.dst].validSeqNo
        && nodes[x].table[d.dst].flag == VALID
      ensures Harmless(nodes, d, no, nodes[x].table[d.dst].seqNo)
    {
      var a := nodes[x].table[d.dst].seqNo;
      assert Known(nodes[x], d.dst) == Some(a);
      forall y | AheadAt(nodes, d, y, no) ensures SignedDiff(a, nodes[y].table[d.dst].seqNo) <= 0 {
        var n := nodes[y].table[d.dst].seqNo;
        assert Known(nodes[y], d.dst) == Some(n);
        ReplyOrder.WindowOrder(base, no, n);
        ReplyOrder.WindowOrder(base, no, a);
        ReplyOrder.WindowOrder(base, a, n);
      }
    }
  }

  // ----- the invariant -----

  /** y has heard the destination itself and thereby lost its entry. */
  predicate Wiped(start: NodeState, y: Addr, t: seq<Addr>, dst: Addr) {
    |t| >= 2 && t[1] == y && Heard(start, dst, dst) != Lookup(start.table, dst)
  }

  ghost predicate Kept(start: map<Addr, NodeState>, nodes: map<Addr, NodeState>, t: seq<Addr>, d: Discovery,
                       no: u32)
  {
    forall y :: AheadAt(start, d, y, no) && y in nodes && !Wiped(start[y], y, t, d.dst) ==>
      Lookup(nodes[y].table, d.dst) == Lookup(start[y].table, d.dst)
  }

  ghost predicate Mild(start: map<Addr, NodeState>, flight: multiset<Packet>, d: Discovery, no: u32) {
    forall pk :: pk in flight && pk.msg.RREP? ==>
      if pk.source == d.dst then pk.msg.rrep.dstSeqno == no else Harmless(start, d, no, pk.msg.rrep.dstSeqno)
  }

  ghost predicate SteadyInv(start: map<Addr, NodeState>, s: Net, d: Discovery, no: u32) {
    && ReplyInv(s, d) && Fresh(start, s.nodes, s.joins, d) && Steady(start, d, no)
    && (AnsweredWith(s, d, no) ==>
          Kept(start, s.nodes, TrailOf(s.trails, d.dst), d, no) && Mild(start, s.flight, d, no))
  }

  // ----- every step keeps the invariant -----

  lemma MildAfter(start: map<Addr, NodeState>, flight: multiset<Packet>, d: Discovery, no: u32, pk: Packet,
                  sent: multiset<Packet>)
    requires Mild(start, flight, d, no)
    requires forall o :: o in sent && o.msg.RREP? ==>
      if o.source == d.dst then o.msg.rrep.dstSeqno == no else Harmless(start, d, no, o.msg.rrep.dstSeqno)
    ensures Mild(start, flight - multiset{pk} + sent, d, no)
  {
    hide Harmless;
    forall o | o in flight - multiset{pk} + sent && o.msg.RREP?
      ensures if o.source == d.dst then o.msg.rrep.dstSeqno == no else Harmless(start, d, no, o.msg.rrep.dstSeqno)
    {
      assert o in sent || o in flight;
    }
  }

  lemma KeptAfter(start: map<Addr, NodeState>, nodes: map<Addr, NodeState>, t: seq<Addr>, d: Discovery, no: u32,
                  y: Addr, n: NodeState, t': seq<Addr>)
    requires Kept(start, nodes, t, d, no) && y in nodes && y in start
    requires t' == t || |t'| < 2 || (t != [] && t' == t + [y])
    requires AheadAt(start, d, y, no) && !Wiped(start[y], y, t', d.dst) ==>
      Lookup(n.table, d.dst) == Lookup(start[y].table, d.dst)
    requires |t'| < 2 ==> |t| < 2
    ensures Kept(start, nodes[y := n], t', d, no)
  {
    hide Ahead, Lookup, Heard;
    var after := nodes[y := n];
    forall x | AheadAt(start, d, x, no) && x in after && !Wiped(start[x], x, t', d.dst)
      ensures Lookup(after[x].table, d.dst) == Lookup(start[x].table, d.dst)
    {
      if x != y {
        assert !Wiped(start[x], x, t, d.dst);
      }
    }
  }

  /** A RREP leaves an entry ahead of no alone, if it is the destination's or harmless and not heard from there. */
  lemma AheadStays(start: NodeState, n: NodeState, p: Rrep, sender: Addr, d: Discovery, no: u32)
    requires p.dst == d.dst && p.origin == d.orig && d.orig != d.dst && sender != d.orig && n.addr != d.orig
    requires d.orig in n.table && n.table[d.orig].flag == VALID
    requires d.dst in start.table && Ahead(start.table[d.dst], no)
    requires Lookup(n.table, d.dst) == Lookup(start.table, d.dst)
    requires p.dstSeqno == no
      || (SignedDiff(no, p.dstSeqno) > 0 && SignedDiff(p.dstSeqno, start.table[d.dst].seqNo) <= 0)
    requires sender == d.dst ==> Heard(start, d.dst, d.dst) == Lookup(start.table, d.dst)
    ensures Lookup(RecvAodv(n, RREP(p), sender).node.table, d.dst) == Lookup(start.table, d.dst)
  {
    hide RecvAodv;
    RelayedReply(n, p, sender);
    HeardSame(n, start, sender, d.dst);
    HeardYields(start, sender, d.dst, no);
  }

  lemma SteadyReply(start: map<Addr, NodeState>, s: Net, d: Discovery, no: u32, pk: Packet, reach: set<Addr>)
    requires SteadyInv(start, s, d, no) && Enabled(s, Deliver(pk, reach)) && pk.msg.RREP?
    ensures SteadyInv(start, Receive(s, d, pk, reach), d, no)
  {
    hide RecvAodv, Post, Receive, ReplyInv, Trail, Inv, Fresh, Steady, Kept, Harmless;
    var y, n, s' := pk.to, s.nodes[pk.to], Receive(s, d, pk, reach);
    NotToDestination(s, d, pk);
    ReplyFacts(s, d, pk);
    InvOf(s, d);
    ReplyReceived(s, d, pk, reach);
    ReceivedParts(s, d, pk, reach);
    var out := NextReply(s, d, pk, reach);
    var r, t, t' := RecvAodv(n, pk.msg, pk.from), TrailOf(s.trails, d.dst), TrailOf(s'.trails, d.dst);
    FreshAfter(start, s.nodes, s.joins, d, y, r.node, s.joins);
    FreshKeys(start, s.nodes, s.joins, d);
    if AnsweredWith(s', d, no) {
      assert AnsweredWith(s, d, no);
      MildAfter(start, s.flight, d, no, pk, Post(y, r.sends, reach, pk.source));
      if AheadAt(start, d, y, no) && !Wiped(start[y], y, t', d.dst) {
        SteadyAtNode(start, s, d, no, pk);
      }
      SourceNotEmpty(s, d, d.dst);
      KeptAfter(start, s.nodes, t, d, no, y, r.node, t');
    }
  }

  lemma SourceNotEmpty(s: Net, d: Discovery, x: Addr)
    requires ReplyInv(s, d)
    ensures x in s.trails ==> s.trails[x] != []
  {
  }

  lemma FreshKeys(start: map<Addr, NodeState>, nodes: map<Addr, NodeState>, joins: map<Addr, Join>, d: Discovery)
    requires Fresh(start, nodes, joins, d)
    ensures start.Keys == nodes.Keys
  {
  }

  lemma SteadyAtNode(start: map<Addr, NodeState>, s: Net, d: Discovery, no: u32, pk: Packet)
    requires SteadyInv(start, s, d, no) && AnsweredWith(s, d, no) && pk in s.flight && pk.msg.RREP? && pk.to in s.nodes
    requires AheadAt(start, d, pk.to, no)
    requires var t := TrailOf(s.trails, d.dst);
      !Wiped(start[pk.to], pk.to, if pk.source == d.dst then t + [pk.to] else t, d.dst)
    ensures Lookup(RecvAodv(s.nodes[pk.to], pk.msg, pk.from).node.table, d.dst)
         == Lookup(start[pk.to].table, d.dst)
  {
    hide RecvAodv, ReplyInv, Trail, Steady, Fresh, Heard;
    NotToDestination(s, d, pk);
    ReplyFacts(s, d, pk);
    var t := TrailOf(s.trails, d.dst);
    assert !Wiped(start[pk.to], pk.to, t, d.dst);
    if pk.from == d.dst {
      assert (t + [pk.to])[1] == pk.to;
    }
    AheadStays(start[pk.to], s.nodes[pk.to], pk.msg.rrep, pk.from, d, no);
  }

  /** What a relay answers with is harmless. */
  lemma HarmlessAnswer(start: map<Addr, NodeState>, n: NodeState, y: Addr, d: Discovery, no: u32, pk: Packet,
                       reach: set<Addr>)
    requires Steady(start, d, no) && Relay(start, d, y) && n.addr == y
    requires Lookup(n.table, d.dst) == Lookup(start[y].table, d.dst)
    requires pk.msg.RREQ? && pk.msg.rreq.dst == d.dst && pk.msg.rreq.origin == d.orig && d.orig != d.dst
    requires (d.orig, pk.msg.rreq.id) !in n.seen && pk.from != d.dst
    ensures forall o :: o in Post(y, RecvAodv(n, pk.msg, pk.from).sends, reach, y) && o.msg.RREP? ==>
      o.source == y && Harmless(start, d, no, o.msg.rrep.dstSeqno)
  {
    hide RecvAodv, Post, Harmless;
    RequestAtRelay(n, pk.msg.rreq, pk.from);
    var sends := RecvAodv(n, pk.msg, pk.from).sends;
    forall o | o in Post(y, sends, reach, y) && o.msg.RREP?
      ensures o.source == y && Harmless(start, d, no, o.msg.rrep.dstSeqno)
    {
      Posted(y, sends, reach, y, o);
    }
  }

  lemma OwnAnswer(n: NodeState, d: Discovery, no: u32, pk: Packet, reach: set<Addr>)
    requires pk.msg.RREQ? && pk.msg.rreq.dst == d.dst && n.addr == d.dst
    requires (pk.msg.rreq.origin, pk.msg.rreq.id) !in n.seen && RecvAodv(n, pk.msg, pk.from).node.seqNo == no
    ensures forall o :: o in Post(d.dst, RecvAodv(n, pk.msg, pk.from).sends, reach, d.dst) && o.msg.RREP? ==>
      o.source == d.dst && o.msg.rrep.dstSeqno == no
  {
    hide RecvAodv, Post;
    AnswerAt(n, pk.msg.rreq, pk.from);
    PostedOne(d.dst, pk.from, RecvAodv(n, pk.msg, pk.from).sends[0].msg, reach, d.dst);
  }

  lemma SteadyAccept(start: map<Addr, NodeState>, s: Net, d: Discovery, no: u32, pk: Packet, reach: set<Addr>)
    requires SteadyInv(start, s, d, no) && Enabled(s, Deliver(pk, reach)) && pk.msg.RREQ?
    requires (d.orig, d.id) !in s.nodes[pk.to].seen
    ensures SteadyInv(start, Receive(s, d, pk, reach), d, no)
  {
    hide RecvAodv, Answers, Receive, Post, ReplyInv, Inv, Kept, Steady, Harmless, Mild;
    var y, n, s' := pk.to, s.nodes[pk.to], Receive(s, d, pk, reach);
    var t, t' := TrailOf(s.trails, d.dst), TrailOf(s'.trails, d.dst);
    SeenFacts(s, d, pk);
    RequestFacts(s, d, pk);
    RequestAccepted(s, d, pk, reach);
    var j := AcceptedParts(s, d, pk, reach);
    NotOnTrail(s, d, d.dst, y);
    var r := RecvAodv(n, pk.msg, pk.from);
    assert y in start && (y != d.dst ==> Lookup(n.table, d.dst) == Lookup(start[y].table, d.dst));
    FreshAfter(start, s.nodes, s.joins, d, y, r.node, s.joins[y := j]);
    hide Fresh;
    if AnsweredWith(s', d, no) {
      if y == d.dst {
        AnswerAt(n, pk.msg.rreq, pk.from);
        OwnAnswer(n, d, no, pk, reach);
      } else {
        RequestAtRelay(n, pk.msg.rreq, pk.from);
        HarmlessAnswer(start, n, y, d, no, pk, reach);
      }
      assert AnsweredWith(s, d, no);
      assert t' == t || (t == [] && |t'| == 1);
      MildAfter(start, s.flight, d, no, pk, Post(y, r.sends, reach, y));
      KeptAfter(start, s.nodes, t, d, no, y, r.node, t');
    }
  }

  lemma SteadyOther(start: map<Addr, NodeState>, s: Net, d: Discovery, no: u32, pk: Packet, reach: set<Addr>)
    requires SteadyInv(start, s, d, no) && Enabled(s, Deliver(pk, reach)) && !pk.msg.RREP?
    requires pk.msg.RREQ? ==> (d.orig, d.id) in s.nodes[pk.to].seen
    ensures SteadyInv(start, Receive(s, d, pk, reach), d, no)
  {
    hide RecvAodv, Receive, Post, ReplyInv, Inv, Steady, Harmless, Mild, Fresh, AheadAt, Wiped;
    var t, y, n, s' := TrailOf(s.trails, d.dst), pk.to, s.nodes[pk.to], Receive(s, d, pk, reach);
    OtherFacts(s, d, pk);
    OtherParts(s, d, pk, reach);
    OtherReceived(s, d, pk, reach);
    NumberStays(n, pk.msg, pk.from);
    OtherAtNode(n, pk.msg, pk.from, d.dst);
    var r := RecvAodv(n, pk.msg, pk.from);
    FreshAfter(start, s.nodes, s.joins, d, y, r.node, s.joins);
    FreshKeys(start, s.nodes, s.joins, d);
    if AnsweredWith(s', d, no) {
      assert AnsweredWith(s, d, no);
      MildAfter(start, s.flight, d, no, pk, multiset{});
      KeptAfter(start, s.nodes, t, d, no, y, r.node, t);
    }
  }

  lemma SteadyStep(start: map<Addr, NodeState>, s: Net, d: Discovery, no: u32, step: Step)
    requires SteadyInv(start, s, d, no) && Enabled(s, step)
    ensures SteadyInv(start, Apply(s, d, step), d, no)
  {
    match step
    case Lose(pk) =>
      hide Kept, Mild, ReplyInv, Fresh, Steady;
      ReplyStepKeeps(s, d, step);
      assert s.flight - multiset{pk} + multiset{} == s.flight - multiset{pk};
      if AnsweredWith(s, d, no) {
        MildAfter(start, s.flight, d, no, pk, multiset{});
      }
    case Deliver(pk, reach) =>
      hide SteadyInv, Receive;
      if pk.msg.RREP? {
        SteadyReply(start, s, d, no, pk, reach);
      } else if pk.msg.RREQ? && (d.orig, d.id) !in s.nodes[pk.to].seen {
        SteadyAccept(start, s, d, no, pk, reach);
      } else {
        SteadyOther(start, s, d, no, pk, reach);
      }
  }

  lemma SteadyLaunch(nodes: map<Addr, NodeState>, d: Discovery, destinationOnly: bool, reach: set<Addr>, no: u32)
    requires Quiet(nodes, d) && Steady(nodes, d, no) && reach <= nodes.Keys - {d.orig}
    ensures SteadyInv(nodes, Launch(nodes, d, destinationOnly, reach), d, no)
  {
    assert d.orig in nodes;
    ReplyLaunch(nodes, d, destinationOnly, reach);
    LaunchSends(nodes, d, destinationOnly, reach);
    LaunchTables(nodes, d, destinationOnly, reach, no, false);
    hide ReplyInv, Quiet, Steady, Ahead, Post;
  }

  lemma {:induction false} SteadyRun(nodes: map<Addr, NodeState>, d: Discovery, destinationOnly: bool,
                                     reach: set<Addr>, steps: seq<Step>, no: u32)
    requires Quiet(nodes, d) && Steady(nodes, d, no) && reach <= nodes.Keys - {d.orig}
    requires Legal(Launch(nodes, d, destinationOnly, reach), d, steps)
    ensures SteadyInv(nodes, Execute(Launch(nodes, d, destinationOnly, reach), d, steps), d, no)
  {
    hide SteadyInv, Steady;
    if steps == [] {
      SteadyLaunch(nodes, d, destinationOnly, reach, no);
    } else {
      var n := |steps| - 1;
      SteadyRun(nodes, d, destinationOnly, reach, steps[..n], no);
      SteadyStep(nodes, Execute(Launch(nodes, d, destinationOnly, reach), d, steps[..n]), d, no, steps[n]);
    }
  }

  // ----- the main result -----

  /** An entry on the trail that does not yield is ahead, has been kept, and is not the exact one. */
  lemma KeptNotExact(start: map<Addr, NodeState>, s: Net, d: Discovery, no: u32, i: nat)
    requires SteadyInv(start, s, d, no) && AnsweredWith(s, d, no)
    requires d.dst in s.trails && 1 <= i < |s.trails[d.dst]| && Relay(start, d, s.trails[d.dst][i])
    requires !FoundYields(start[s.trails[d.dst][i]], s.trails[d.dst][i - 1], d.dst, no)
    ensures var t := s.trails[d.dst]; t[i] in s.nodes && !ForwardAt(s.nodes[t[i]], d.dst, no, i, t[i - 1])
  {
    var t := s.trails[d.dst];
    assert Trail(t, d.dst, s.joins, d.orig);
    TrailDistinct(t, d.dst, s.joins, d.orig);
    SteadyIsOlder(start, d, no);
    hide ReplyInv, Trail, Mild, Steady, AnswersOlder;
    FreshKeys(start, s.nodes, s.joins, d);
    NotYielding(start, d, t[i], t[i - 1], no);
    assert t[1] == t[i] ==> i == 1;
  }

  /** With every stored answer older, what does not yield once the predecessor is heard is ahead and untouched. */
  lemma NotYielding(start: map<Addr, NodeState>, d: Discovery, x: Addr, before: Addr, no: u32)
    requires AnswersOlder(start, d, no) && Relay(start, d, x) && !FoundYields(start[x], before, d.dst, no)
    ensures AheadAt(start, d, x, no) && Heard(start[x], before, d.dst) == Lookup(start[x].table, d.dst)
    ensures start[x].table[d.dst].flag != VALID
  {
    HeardYields(start[x], before, d.dst, no);
  }

  /**
   * Exactly when the path is exact, whoever answers: in every reachable state in which the destination has
   * answered with number no, and every other possible answer is older and displaces no entry that is ahead of no,
   * the path is exact if and only if the entries found on the trail yield to no.
   */
  lemma SteadyPathIff(nodes: map<Addr, NodeState>, d: Discovery, destinationOnly: bool, reach: set<Addr>,
                      steps: seq<Step>)
    requires Quiet(nodes, d) && reach <= nodes.Keys - {d.orig}
    requires Legal(Launch(nodes, d, destinationOnly, reach), d, steps)
    ensures var s := Execute(Launch(nodes, d, destinationOnly, reach), d, steps);
      d.dst in s.nodes &&
      (d.dst in s.trails && Steady(nodes, d, s.nodes[d.dst].seqNo) ==>
         var t, no := s.trails[d.dst], s.nodes[d.dst].seqNo;
         ExactPath(s.nodes, t, d.dst, no) <==> TrailYields(nodes, t, d, no))
  {
    hide Steady, Execute, Legal, Launch, ExactPath, AnswersOlder, Fresh;
    ForwardPathTheorem(nodes, d, destinationOnly, reach, steps);
    NodesStay(nodes, d, destinationOnly, reach, steps);
    var s := Execute(Launch(nodes, d, destinationOnly, reach), d, steps);
    var no := s.nodes[d.dst].seqNo;
    if d.dst in s.trails && Steady(nodes, d, no) {
      SteadyRun(nodes, d, destinationOnly, reach, steps, no);
      SteadyIsOlder(nodes, d, no);
      TrailInside(nodes, s, d);
      if !TrailYields(nodes, s.trails[d.dst], d, no) {
        OneNotExact(nodes, s, d, no);
      }
    }
  }

  lemma OneNotExact(start: map<Addr, NodeState>, s: Net, d: Discovery, no: u32)
    requires SteadyInv(start, s, d, no) && AnsweredWith(s, d, no) && d.dst in s.trails
    requires forall i :: 1 <= i < |s.trails[d.dst]| && s.trails[d.dst][i] != d.orig ==>
      Relay(start, d, s.trails[d.dst][i])
    requires !TrailYields(start, s.trails[d.dst], d, no)
    ensures !ExactPath(s.nodes, s.trails[d.dst], d.dst, no)
  {
    hide SteadyInv, FoundYields, ForwardAt;
    var t := s.trails[d.dst];
    var i :| 1 <= i < |t| && t[i] != d.orig && !(t[i] in start && FoundYields(start[t[i]], t[i - 1], d.dst, no));
    KeptNotExact(start, s, d, no, i);
  }

  lemma SteadyIsOlder(nodes: map<Addr, NodeState>, d: Discovery, no: u32)
    requires Steady(nodes, d, no)
    ensures AnswersOlder(nodes, d, no)
  {
    forall x | x in nodes && x != d.orig && x != d.dst && d.dst in nodes[x].table && nodes[x].table[d.dst].validSeqNo
        && nodes[x].table[d.dst].flag == VALID
      ensures SignedDiff(no, nodes[x].table[d.dst].seqNo) > 0
    {
      assert Relay(nodes, d, x) && Harmless(nodes, d, no, nodes[x].table[d.dst].seqNo);
    }
  }
}
