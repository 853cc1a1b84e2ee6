/**
 * The forward path of the same discovery: what the destination's own RREP leaves in the tables it passes, and
 * the condition on the entries found there under which that path is exact.
 */
module AodvForward {
  import opened Sequences
  import opened Words
  import opened Options
  import opened AodvNode
  import opened AodvFlood
  import opened AodvReply

  /** An entry that any RREP with number no replaces, from whatever distance it comes. */
  predicate Yields(e: Route, no: u32) {
    || !e.validSeqNo
    || SignedDiff(no, e.seqNo) > 0
    || (e.seqNo == no && e.flag != VALID)
  }

  lemma YieldsIff(e: Route, no: u32)
    ensures Yields(e, no) <==> forall hop: nat, via: Addr :: ReplyReplaces(e, Route(true, no, hop, via, VALID))
  {
    if !Yields(e, no) {
      assert !ReplyReplaces(e, Route(true, no, e.hop, 0, VALID));
    }
  }

  /** Every route that a node could answer with in the destination's place is older than no. */
  ghost predicate AnswersOlder(nodes: map<Addr, NodeState>, d: Discovery, no: u32) {
    forall x :: x in nodes && x != d.orig && x != d.dst && d.dst in nodes[x].table ==>
      nodes[x].table[d.dst].validSeqNo && nodes[x].table[d.dst].flag == VALID ==>
        SignedDiff(no, nodes[x].table[d.dst].seqNo) > 0
  }

  /** No node has a route that it could answer with. */
  ghost predicate NoRoute(nodes: map<Addr, NodeState>, d: Discovery) {
    forall x :: x in nodes && x != d.orig && x != d.dst && d.dst in nodes[x].table ==>
      !(nodes[x].table[d.dst].validSeqNo && nodes[x].table[d.dst].flag == VALID)
  }

  /** Only the destination can answer, or else whoever answers in its place has an older route. */
  ghost predicate Answerers(nodes: map<Addr, NodeState>, d: Discovery, no: u32, alone: bool, only: bool) {
    if alone then only || NoRoute(nodes, d) else AnswersOlder(nodes, d, no)
  }

  /** The forward route at position i of the trail: exactly i hops, through the node before it. */
  ghost predicate ForwardAt(n: NodeState, dst: Addr, no: u32, i: nat, before: Addr) {
    dst in n.table && n.table[dst] == Route(true, no, i, before, VALID)
  }

  function TrailOf(trails: map<Addr, seq<Addr>>, x: Addr): seq<Addr> { if x in trails then trails[x] else [] }

  // ----- the invariant -----

  /** What the RREP with number no offers at distance i. */
  function Exact(no: u32, i: nat, before: Addr): Route { Route(true, no, i, before, VALID) }

  /** What stood in the table at the start, as hearing the predecessor leaves it, yields to no. */
  predicate FoundYields(start: NodeState, before: Addr, dst: Addr, no: u32) {
    Heard(start, before, dst).Some? ==> Yields(Heard(start, before, dst).value, no)
  }

  /** Before the reply has come through x: the entry of the start, or a RREP of another node has made it yield. */
  ghost predicate OffTrail(start: NodeState, n: NodeState, x: Addr, d: Discovery, no: u32, alone: bool) {
    if x == d.dst then true
    else if x == d.orig then d.dst in n.table && (n.table[d.dst].flag == IN_SEARCH || Yields(n.table[d.dst], no))
    else
      || Lookup(n.table, d.dst) == Lookup(start.table, d.dst)
      || (!alone && d.dst in n.table && Yields(n.table[d.dst], no))
  }

  /** Once it has come through x, at distance i from the destination. */
  ghost predicate OnTrail(start: NodeState, n: NodeState, x: Addr, d: Discovery, no: u32, alone: bool, i: nat,
                          before: Addr)
  {
    if x == d.orig then ForwardAt(n, d.dst, no, i, before)
    else
      && (FoundYields(start, before, d.dst, no) ==> ForwardAt(n, d.dst, no, i, before))
      && (alone ==>
            Lookup(n.table, d.dst) == Some(Settled(Heard(start, before, d.dst), Exact(no, i, before))))
  }

  ghost predicate Entries(start: map<Addr, NodeState>, nodes: map<Addr, NodeState>, t: seq<Addr>, d: Discovery,
                          no: u32, alone: bool)
  {
    && start.Keys == nodes.Keys
    && (forall x :: x in nodes && x !in t ==> OffTrail(start[x], nodes[x], x, d, no, alone))
    && (forall i :: 1 <= i < |t| ==>
          t[i] in nodes && OnTrail(start[t[i]], nodes[t[i]], t[i], d, no, alone, i, t[i - 1]))
  }

  /** A node that has not accepted yet has the entry it had at the start. */
  ghost predicate Fresh(start: map<Addr, NodeState>, nodes: map<Addr, NodeState>, joins: map<Addr, Join>,
                        d: Discovery)
  {
    && start.Keys == nodes.Keys
    && forall x :: x in nodes && x != d.orig && x !in joins ==>
         Lookup(nodes[x].table, d.dst) == Lookup(start[x].table, d.dst)
  }

  ghost predicate Flagged(flight: multiset<Packet>, only: bool) {
    forall pk :: pk in flight && pk.msg.RREQ? ==> pk.msg.rreq.destinationOnly == only
  }

  /** The destination's reply carries its number and the length of its trail; the others are older. */
  ghost predicate NumberOk(p: Rrep, source: Addr, t: seq<Addr>, d: Discovery, no: u32, alone: bool) {
    if source == d.dst then p.dstSeqno == no && p.hop == |t| - 1 else !alone && SignedDiff(no, p.dstSeqno) > 0
  }

  ghost predicate Numbers(flight: multiset<Packet>, t: seq<Addr>, d: Discovery, no: u32, alone: bool) {
    forall pk :: pk in flight && pk.msg.RREP? ==> NumberOk(pk.msg.rrep, pk.source, t, d, no, alone)
  }

  /** If the destination has answered, it was with number no. */
  ghost predicate AnsweredWith(s: Net, d: Discovery, no: u32) {
    d.dst in s.trails ==> d.dst in s.nodes && s.nodes[d.dst].seqNo == no
  }

  ghost predicate ForwardInv(start: map<Addr, NodeState>, s: Net, d: Discovery, no: u32, alone: bool, only: bool) {
    && ReplyInv(s, d) && Fresh(start, s.nodes, s.joins, d) && Flagged(s.flight, only)
    && Answerers(start, d, no, alone, only)
    && (AnsweredWith(s, d, no) ==>
          var t := TrailOf(s.trails, d.dst);
          Entries(start, s.nodes, t, d, no, alone) && Numbers(s.flight, t, d, no, alone))
  }

  // ----- entries -----

  /** Hearing a node other than dst does not touch the entry for dst; hearing dst may make it invalid. */
  lemma HeardYields(n: NodeState, sender: Addr, dst: Addr, no: u32)
    ensures sender != dst ==> Heard(n, sender, dst) == Lookup(n.table, dst)
    ensures (dst in n.table ==> Yields(n.table[dst], no)) ==>
      (Heard(n, sender, dst).Some? ==> Yields(Heard(n, sender, dst).value, no))
    ensures dst in n.table && n.table[dst].flag == IN_SEARCH ==>
      && Heard(n, sender, dst).Some?
      && (Heard(n, sender, dst).value.flag == IN_SEARCH || Yields(Heard(n, sender, dst).value, no))
  {
  }

  /** What is heard depends on the entry for dst alone. */
  lemma HeardSame(n: NodeState, m: NodeState, sender: Addr, dst: Addr)
    requires Lookup(n.table, dst) == Lookup(m.table, dst)
    ensures Heard(n, sender, dst) == Heard(m, sender, dst)
  {
  }

  /** An offer with an older number leaves what it replaces yielding, and an exact entry as it is. */
  lemma OlderOffer(prior: Option<Route>, offer: Route, no: u32)
    requires offer.validSeqNo && SignedDiff(no, offer.seqNo) > 0
    ensures Yields(offer, no)
    ensures Some(Settled(prior, offer)) == prior || Yields(Settled(prior, offer), no)
    ensures (prior.Some? ==> Yields(prior.value, no)) ==> Yields(Settled(prior, offer), no)
    ensures prior.Some? && prior.value.validSeqNo && prior.value.seqNo == no && prior.value.flag == VALID ==>
      Settled(prior, offer) == prior.value
  {
  }

  /** An entry that carries number no as a VALID route: the exact ones do. */
  predicate Current(n: NodeState, dst: Addr, no: u32) {
    dst in n.table && n.table[dst].validSeqNo && n.table[dst].seqNo == no && n.table[dst].flag == VALID
  }

  /** The table of y changes, but its place in the invariant does not. */
  lemma EntryStays(start: map<Addr, NodeState>, nodes: map<Addr, NodeState>, t: seq<Addr>, d: Discovery, no: u32,
                   alone: bool, y: Addr, n: NodeState)
    requires Entries(start, nodes, t, d, no, alone) && y in nodes
    requires y !in t ==> OffTrail(start[y], n, y, d, no, alone)
    requires y in t ==>
      || Lookup(n.table, d.dst) == Lookup(nodes[y].table, d.dst)
      || (!alone && !Current(nodes[y], d.dst, no))
    ensures Entries(start, nodes[y := n], t, d, no, alone)
  {
    hide Settled, Heard, FoundYields, Yields;
    var after := nodes[y := n];
    forall i | 1 <= i < |t|
      ensures t[i] in after && OnTrail(start[t[i]], after[t[i]], t[i], d, no, alone, i, t[i - 1])
    {
      assert OnTrail(start[t[i]], nodes[t[i]], t[i], d, no, alone, i, t[i - 1]);
    }
  }

  lemma TrailComes(start: map<Addr, NodeState>, nodes: map<Addr, NodeState>, t: seq<Addr>, d: Discovery, no: u32,
                   alone: bool, y: Addr, n: NodeState)
    requires Entries(start, nodes, t, d, no, alone) && y in nodes && y !in t
    requires if t == [] then y == d.dst else OnTrail(start[y], n, y, d, no, alone, |t|, Last(t))
    ensures Entries(start, nodes[y := n], t + [y], d, no, alone)
  {
    hide OnTrail, OffTrail;
    var more, after := t + [y], nodes[y := n];
    forall i | 1 <= i < |more|
      ensures more[i] in after && OnTrail(start[more[i]], after[more[i]], more[i], d, no, alone, i, more[i - 1])
    {
      if i < |t| {
        assert t[i] in nodes && OnTrail(start[t[i]], nodes[t[i]], t[i], d, no, alone, i, t[i - 1]);
      }
    }
    forall x | x in after && x !in more ensures OffTrail(start[x], after[x], x, d, no, alone) {
      assert x !in t;
    }
  }

  // ----- what one handler call does -----

  /** Only answering a fresh request can change a node's own sequence number. */
  lemma NumberStays(n: NodeState, msg: Message, sender: Addr)
    requires msg.RREQ? ==> (msg.rreq.origin, msg.rreq.id) in n.seen || msg.rreq.dst != n.addr
    ensures RecvAodv(n, msg, sender).node.seqNo == n.seqNo
  {
  }

  /** A fresh request leaves the entry for its destination alone; who answers in its place has a sound one. */
  lemma RequestAtRelay(n: NodeState, q: Rreq, sender: Addr)
    requires (q.origin, q.id) !in n.seen && q.dst != n.addr && q.dst != q.origin && sender != q.dst
    ensures var r := RecvAodv(n, RREQ(q), sender);
      && Lookup(r.node.table, q.dst) == Lookup(n.table, q.dst)
      && forall i :: 0 <= i < |r.sends| ==>
           if r.sends[i].msg.RREP? then
             && !q.destinationOnly && q.dst in n.table && n.table[q.dst].validSeqNo && n.table[q.dst].flag == VALID
             && r.sends[i].msg.rrep.dstSeqno == n.table[q.dst].seqNo
           else r.sends[i].msg.RREQ? && r.sends[i].msg.rreq.destinationOnly == q.destinationOnly
  {
  }

  /** A repeated request or an acknowledgement leaves it alone too. */
  lemma OtherAtNode(n: NodeState, msg: Message, sender: Addr, dst: Addr)
    requires !msg.RREP? && sender != dst && (msg.RREQ? ==> (msg.rreq.origin, msg.rreq.id) in n.seen)
    ensures var r := RecvAodv(n, msg, sender); Lookup(r.node.table, dst) == Lookup(n.table, dst) && r.sends == []
  {
  }

  /** The numbers in flight after a step. */
  lemma NumbersAfter(flight: multiset<Packet>, t: seq<Addr>, d: Discovery, no: u32, alone: bool, pk: Packet,
                     sent: multiset<Packet>, t': seq<Addr>)
    requires Numbers(flight, t, d, no, alone)
    requires t' == t || forall o :: o in flight - multiset{pk} && o.msg.RREP? ==> o.source != d.dst
    requires forall o :: o in sent && o.msg.RREP? ==> NumberOk(o.msg.rrep, o.source, t', d, no, alone)
    ensures Numbers(flight - multiset{pk} + sent, t', d, no, alone)
  {
    forall o | o in flight - multiset{pk} + sent && o.msg.RREP?
      ensures NumberOk(o.msg.rrep, o.source, t', d, no, alone)
    {
      assert o in sent || (o in flight - multiset{pk} && o in flight);
    }
  }

  lemma FlagsAfter(flight: multiset<Packet>, only: bool, pk: Packet, sent: multiset<Packet>)
    requires Flagged(flight, only)
    requires forall o :: o in sent && o.msg.RREQ? ==> o.msg.rreq.destinationOnly == only
    ensures Flagged(flight - multiset{pk} + sent, only)
  {
    forall o | o in flight - multiset{pk} + sent && o.msg.RREQ? ensures o.msg.rreq.destinationOnly == only {
      assert o in sent || o in flight;
    }
  }

  lemma FreshAfter(start: map<Addr, NodeState>, nodes: map<Addr, NodeState>, joins: map<Addr, Join>, d: Discovery,
                   y: Addr, n: NodeState, joins': map<Addr, Join>)
    requires Fresh(start, nodes, joins, d) && y in nodes && joins.Keys <= joins'.Keys
    requires y == d.orig || y in joins' || Lookup(n.table, d.dst) == Lookup(nodes[y].table, d.dst)
    ensures Fresh(start, nodes[y := n], joins', d)
  {
  }

  /** A fresh request in flight, at a node without a route to the originator. */
  lemma RequestFacts(s: Net, d: Discovery, pk: Packet)
    requires ReplyInv(s, d) && pk in s.flight && pk.msg.RREQ? && pk.to != d.orig && pk.to !in s.joins
    ensures Inv(s, d) && pk.to in s.nodes && s.nodes[pk.to].addr == pk.to && d.orig !in s.nodes[pk.to].table
    ensures (d.orig, d.id) !in s.nodes[pk.to].seen && pk.from != d.dst && d.orig != d.dst && pk.msg.rreq.hop < TWO_8 - 1
    ensures pk.msg.rreq.origin == d.orig && pk.msg.rreq.id == d.id && pk.msg.rreq.dst == d.dst
  {
    assert PacketOk(s.nodes.Keys, s.joins, d, pk) && ReverseAt(s.nodes[pk.to], pk.to, s.joins, d.orig);
    JoinsBound(s, d, pk.to);
    assert pk.from in s.joins ==> Below(s.joins, d.orig, s.joins[pk.from]);
  }

  // ----- a request accepted by a node other than the destination -----

  /** What it sends: the request with its flag, or a RREP in the destination's place with an older number. */
  lemma RelaySends(start: NodeState, n: NodeState, y: Addr, t: seq<Addr>, d: Discovery, no: u32, alone: bool,
                   only: bool, pk: Packet, reach: set<Addr>)
    requires y != d.orig && y != d.dst && n.addr == y && Lookup(n.table, d.dst) == Lookup(start.table, d.dst)
    requires d.dst in start.table && start.table[d.dst].validSeqNo && start.table[d.dst].flag == VALID ==>
      if alone then only else SignedDiff(no, start.table[d.dst].seqNo) > 0
    requires pk.msg.RREQ? && pk.msg.rreq.dst == d.dst && pk.msg.rreq.origin == d.orig && d.orig != d.dst
    requires (d.orig, pk.msg.rreq.id) !in n.seen && pk.from != d.dst && pk.msg.rreq.destinationOnly == only
    ensures forall o :: o in Post(y, RecvAodv(n, pk.msg, pk.from).sends, reach, y) ==>
      && (o.msg.RREP? ==> NumberOk(o.msg.rrep, o.source, t, d, no, alone))
      && (o.msg.RREQ? ==> o.msg.rreq.destinationOnly == only)
  {
    hide RecvAodv, Post;
    RequestAtRelay(n, pk.msg.rreq, pk.from);
    var sends := RecvAodv(n, pk.msg, pk.from).sends;
    forall o | o in Post(y, sends, reach, y)
      ensures o.msg.RREP? ==> NumberOk(o.msg.rrep, o.source, t, d, no, alone)
      ensures o.msg.RREQ? ==> o.msg.rreq.destinationOnly == only
    {
      Posted(y, sends, reach, y, o);
    }
  }

  /** The receiver has the entry it had at the start; if that is a route to answer with, it is old or unwanted. */
  lemma RelayFound(start: map<Addr, NodeState>, s: Net, d: Discovery, no: u32, alone: bool, only: bool, y: Addr)
    requires Fresh(start, s.nodes, s.joins, d) && Answerers(start, d, no, alone, only)
    requires y in s.nodes && y != d.orig && y != d.dst && y !in s.joins
    ensures y in start && Lookup(s.nodes[y].table, d.dst) == Lookup(start[y].table, d.dst)
    ensures d.dst in start[y].table && start[y].table[d.dst].validSeqNo && start[y].table[d.dst].flag == VALID ==>
      if alone then only else SignedDiff(no, start[y].table[d.dst].seqNo) > 0
  {
  }

  lemma RelayAccepts(start: map<Addr, NodeState>, s: Net, d: Discovery, no: u32, alone: bool, only: bool, pk: Packet,
                     reach: set<Addr>)
    requires ForwardInv(start, s, d, no, alone, only) && Enabled(s, Deliver(pk, reach)) && pk.msg.RREQ?
    requires pk.to != d.dst && (d.orig, d.id) !in s.nodes[pk.to].seen
    ensures ForwardInv(start, Receive(s, d, pk, reach), d, no, alone, only)
  {
    hide RecvAodv, Answers, Receive, Post, Numbers, ReplyInv, Inv, Entries, Yields, Fresh, Answerers, OffTrail;
    var t, y, n, s' := TrailOf(s.trails, d.dst), pk.to, s.nodes[pk.to], Receive(s, d, pk, reach);
    SeenFacts(s, d, pk);
    RequestFacts(s, d, pk);
    RequestAccepted(s, d, pk, reach);
    var j := AcceptedParts(s, d, pk, reach);
    NotOnTrail(s, d, d.dst, y);
    assert pk.msg.rreq.destinationOnly == only;
    hide Flagged;
    RelayFound(start, s, d, no, alone, only, y);
    var r := RecvAodv(n, pk.msg, pk.from);
    RequestAtRelay(n, pk.msg.rreq, pk.from);
    RelaySends(start[y], n, y, t, d, no, alone, only, pk, reach);
    FlagsAfter(s.flight, only, pk, Post(y, r.sends, reach, y));
    FreshAfter(start, s.nodes, s.joins, d, y, r.node, s.joins[y := j]);
    if AnsweredWith(s', d, no) {
      assert AnsweredWith(s, d, no);
      NumbersAfter(s.flight, t, d, no, alone, pk, Post(y, r.sends, reach, y), t);
      OffAtStart(start[y], r.node, y, d, no, alone);
      EntryStays(start, s.nodes, t, d, no, alone, y, r.node);
    }
  }

  lemma OffAtStart(start: NodeState, n: NodeState, y: Addr, d: Discovery, no: u32, alone: bool)
    requires y != d.orig && Lookup(n.table, d.dst) == Lookup(start.table, d.dst)
    ensures OffTrail(start, n, y, d, no, alone)
  {
  }

  /** A request that its receiver has not seen yet is not at the originator, and the receiver has not accepted. */
  lemma SeenFacts(s: Net, d: Discovery, pk: Packet)
    requires ReplyInv(s, d) && pk in s.flight && pk.to in s.nodes && (d.orig, d.id) !in s.nodes[pk.to].seen
    ensures pk.to != d.orig && pk.to !in s.joins
  {
  }

  /** A node that has not accepted is not on the trail of x, nor has it one itself. */
  lemma NotOnTrail(s: Net, d: Discovery, x: Addr, y: Addr)
    requires ReplyInv(s, d) && y != d.orig && y !in s.joins
    ensures y !in TrailOf(s.trails, x) && y !in s.trails
  {
    if x in s.trails {
      assert Trail(s.trails[x], x, s.joins, d.orig);
      TrailDistinct(s.trails[x], x, s.joins, d.orig);
    }
    assert y in s.trails ==> Trail(s.trails[y], y, s.joins, d.orig);
  }

  // ----- a request accepted by the destination -----

  /** Before a node has answered, no reply of it is in flight. */
  lemma NoneOf(s: Net, d: Discovery, x: Addr)
    requires ReplyInv(s, d) && x !in s.trails
    ensures forall o :: o in s.flight && o.msg.RREP? ==> o.source != x
  {
    forall o | o in s.flight && o.msg.RREP? ensures o.source != x {
      assert AtTrailEnd(s.trails, s.lost, d.orig, o);
    }
  }

  lemma AnswerAt(n: NodeState, q: Rreq, src: Addr)
    requires (q.origin, q.id) !in n.seen && q.dst == n.addr
    ensures var r := RecvAodv(n, RREQ(q), src);
      r.sends == [Unicast(src, RREP(Rrep(0, q.dst, r.node.seqNo, q.origin, false)))] && Answers(r.sends)
  {
    DestinationAnswers(UpdateRouteToNeighbor(n, src), q, src);
    var sends := RecvAodv(n, RREQ(q), src).sends;
    assert sends[0].Unicast? && sends[0].msg.RREP?;
  }

  lemma DestinationAccepts(start: map<Addr, NodeState>, s: Net, d: Discovery, no: u32, alone: bool, only: bool,
                           pk: Packet, reach: set<Addr>)
    requires ForwardInv(start, s, d, no, alone, only) && Enabled(s, Deliver(pk, reach)) && pk.msg.RREQ?
    requires pk.to == d.dst && (d.orig, d.id) !in s.nodes[pk.to].seen
    ensures ForwardInv(start, Receive(s, d, pk, reach), d, no, alone, only)
  {
    hide RecvAodv, Answers, Post, Receive, ReplyInv, Numbers, Entries, Fresh, Flagged, Answerers;
    var n, s' := s.nodes[d.dst], Receive(s, d, pk, reach);
    SeenFacts(s, d, pk);
    RequestFacts(s, d, pk);
    NotOnTrail(s, d, d.dst, d.dst);
    NoneOf(s, d, d.dst);
    RequestAccepted(s, d, pk, reach);
    assert AnsweredWith(s, d, no);
    assert Entries(start, s.nodes, [], d, no, alone) && Numbers(s.flight, [], d, no, alone);
    var j := AcceptedParts(s, d, pk, reach);
    AnswerAt(n, pk.msg.rreq, pk.from);
    var r := RecvAodv(n, pk.msg, pk.from);
    PostedOne(d.dst, pk.from, r.sends[0].msg, reach, d.dst);
    var sent := Post(d.dst, r.sends, reach, d.dst);
    FlagsAfter(s.flight, only, pk, sent);
    FreshAfter(start, s.nodes, s.joins, d, d.dst, r.node, s.joins[d.dst := j]);
    if AnsweredWith(s', d, no) {
      assert [] + [d.dst] == [d.dst];
      NumbersAfter(s.flight, [], d, no, alone, pk, sent, [d.dst]);
      TrailComes(start, s.nodes, [], d, no, alone, d.dst, r.node);
    }
  }

  // ----- a repeated request or an acknowledgement -----

  lemma OtherFacts(s: Net, d: Discovery, pk: Packet)
    requires ReplyInv(s, d) && pk in s.flight && !pk.msg.RREP?
    ensures Inv(s, d) && pk.from != d.dst
    ensures pk.msg.RREQ? ==> pk.msg.rreq.origin == d.orig && pk.msg.rreq.id == d.id
  {
    assert PacketOk(s.nodes.Keys, s.joins, d, pk);
  }

  lemma StillOff(start: NodeState, n: NodeState, m: NodeState, x: Addr, d: Discovery, no: u32, alone: bool)
    requires OffTrail(start, n, x, d, no, alone) && Lookup(m.table, d.dst) == Lookup(n.table, d.dst)
    ensures OffTrail(start, m, x, d, no, alone)
  {
  }

  lemma OtherArrives(start: map<Addr, NodeState>, s: Net, d: Discovery, no: u32, alone: bool, only: bool,
                     pk: Packet, reach: set<Addr>)
    requires ForwardInv(start, s, d, no, alone, only) && Enabled(s, Deliver(pk, reach)) && !pk.msg.RREP?
    requires pk.msg.RREQ? ==> (d.orig, d.id) in s.nodes[pk.to].seen
    ensures ForwardInv(start, Receive(s, d, pk, reach), d, no, alone, only)
  {
    hide RecvAodv, Numbers, Receive, Post, ReplyInv, OffTrail, OnTrail, Fresh, Flagged, Answerers, Inv;
    var t, y, n, s' := TrailOf(s.trails, d.dst), pk.to, s.nodes[pk.to], Receive(s, d, pk, reach);
    OtherFacts(s, d, pk);
    OtherParts(s, d, pk, reach);
    OtherReceived(s, d, pk, reach);
    NumberStays(n, pk.msg, pk.from);
    OtherAtNode(n, pk.msg, pk.from, d.dst);
    var r := RecvAodv(n, pk.msg, pk.from);
    FlagsAfter(s.flight, only, pk, multiset{});
    FreshAfter(start, s.nodes, s.joins, d, y, r.node, s.joins);
    if AnsweredWith(s', d, no) {
      assert AnsweredWith(s, d, no);
      NumbersAfter(s.flight, t, d, no, alone, pk, multiset{}, t);
      if y !in t {
        StillOff(start[y], n, r.node, y, d, no, alone);
      }
      EntryStays(start, s.nodes, t, d, no, alone, y, r.node);
    }
  }

  // ----- the destination's own reply -----

  /** At a relay it settles with what the start left, unless another RREP has already made that yield. */
  lemma StoredAtRelay(start: NodeState, n: NodeState, p: Rrep, sender: Addr, d: Discovery, no: u32, alone: bool)
    requires p.dst == d.dst && p.origin == d.orig && d.orig != d.dst && n.addr != d.orig && n.addr != d.dst
    requires sender != d.orig && p.dstSeqno == no && p.hop < TWO_8 - 1
    requires d.orig in n.table && n.table[d.orig].flag == VALID
    requires OffTrail(start, n, n.addr, d, no, alone)
    ensures OnTrail(start, RecvAodv(n, RREP(p), sender).node, n.addr, d, no, alone, p.hop + 1, sender)
  {
    hide RecvAodv;
    HeardYields(n, sender, d.dst, no);
    RelayedReply(n, p, sender);
    if Lookup(n.table, d.dst) == Lookup(start.table, d.dst) {
      HeardSame(n, start, sender, d.dst);
    }
  }

  lemma StoredAtOriginator(start: NodeState, n: NodeState, p: Rrep, sender: Addr, d: Discovery, no: u32, alone: bool)
    requires p.dst == d.dst && p.origin == d.orig && d.orig != d.dst && n.addr == d.orig
    requires p.dstSeqno == no && p.hop < TWO_8 - 1 && OffTrail(start, n, d.orig, d, no, alone)
    ensures OnTrail(start, RecvAodv(n, RREP(p), sender).node, d.orig, d, no, alone, p.hop + 1, sender)
  {
    hide RecvAodv;
    HeardYields(n, sender, d.dst, no);
    ArrivedReply(n, p, sender);
  }

  /** Who a RREP in flight is for, and what its receiver knows about the way back. */
  lemma ReplyFacts(s: Net, d: Discovery, pk: Packet)
    requires ReplyInv(s, d) && pk in s.flight && pk.msg.RREP?
    ensures pk.msg.rrep.dst == d.dst && pk.msg.rrep.origin == d.orig && d.orig != d.dst && pk.from != d.orig
    ensures pk.to in s.nodes && s.nodes[pk.to].addr == pk.to && pk.source in s.trails
    ensures pk.to != d.orig ==> d.orig in s.nodes[pk.to].table && s.nodes[pk.to].table[d.orig].flag == VALID
    ensures |s.trails[pk.source]| < TWO_8 && (pk.to == d.orig || pk.to in s.joins)
  {
    NotToDestination(s, d, pk);
    assert PacketOk(s.nodes.Keys, s.joins, d, pk) && AtTrailEnd(s.trails, s.lost, d.orig, pk);
    assert Below(s.joins, d.orig, s.joins[pk.from]);
    assert pk.to != d.orig ==> ReverseAt(s.nodes[pk.to], pk.to, s.joins, d.orig);
    TrailDistinct(s.trails[pk.source], pk.source, s.joins, d.orig);
    DepthBound(s, d, pk.source);
  }

  /** The tree is less than 256 levels deep. */
  lemma DepthBound(s: Net, d: Discovery, x: Addr)
    requires Inv(s, d) && x in s.joins
    ensures s.joins[x].hop < TWO_8
  {
    assert Below(s.joins, d.orig, s.joins[x]);
    SubsetSize(s.joins.Keys, s.nodes.Keys - {d.orig});
    assert |s.nodes.Keys - {d.orig}| == |s.nodes.Keys| - 1;
  }

  lemma OwnReplyStored(start: map<Addr, NodeState>, s: Net, d: Discovery, no: u32, alone: bool, only: bool, pk: Packet)
    requires ForwardInv(start, s, d, no, alone, only) && AnsweredWith(s, d, no)
    requires pk in s.flight && pk.msg.RREP? && pk.source == d.dst
    ensures pk.to in s.nodes && d.dst in s.trails && Last(s.trails[d.dst]) == pk.from && pk.to !in s.trails[d.dst]
    ensures OnTrail(start[pk.to], RecvAodv(s.nodes[pk.to], pk.msg, pk.from).node, pk.to, d, no, alone,
                    |s.trails[d.dst]|, pk.from)
    ensures NumberOk(Next(pk.msg.rrep), d.dst, s.trails[d.dst] + [pk.to], d, no, alone)
  {
    hide RecvAodv, ForwardAt, ReplyInv, OffTrail, OnTrail;
    NotToDestination(s, d, pk);
    ReplyFacts(s, d, pk);
    var t, n, p := s.trails[d.dst], s.nodes[pk.to], pk.msg.rrep;
    assert NumberOk(p, d.dst, t, d, no, alone) && OffTrail(start[pk.to], n, pk.to, d, no, alone);
    hide Entries, Numbers, Fresh, Flagged, Trail, Yields;
    if pk.to == d.orig {
      StoredAtOriginator(start[pk.to], n, p, pk.from, d, no, alone);
    } else {
      StoredAtRelay(start[pk.to], n, p, pk.from, d, no, alone);
    }
  }

  // ----- a RREP of another node -----

  /** It is older: it cannot displace the destination's number, and what it leaves in its own place yields. */
  lemma OlderAtNode(start: NodeState, n: NodeState, p: Rrep, sender: Addr, d: Discovery, no: u32)
    requires p.dst == d.dst && p.origin == d.orig && d.orig != d.dst && n.addr != d.dst
    requires sender != d.orig && sender != d.dst && SignedDiff(no, p.dstSeqno) > 0
    requires n.addr != d.orig ==> d.orig in n.table && n.table[d.orig].flag == VALID
    ensures var m := RecvAodv(n, RREP(p), sender).node;
      && (Current(n, d.dst, no) ==> Lookup(m.table, d.dst) == Lookup(n.table, d.dst))
      && (OffTrail(start, n, n.addr, d, no, false) ==> OffTrail(start, m, n.addr, d, no, false))
  {
    hide RecvAodv;
    HeardYields(n, sender, p.dst, no);
    OlderOffer(Heard(n, sender, p.dst), Offer(p, sender), no);
    if p.origin == n.addr {
      ArrivedReply(n, p, sender);
    } else {
      RelayedReply(n, p, sender);
    }
  }

  lemma OtherReplyStored(start: map<Addr, NodeState>, s: Net, d: Discovery, no: u32, alone: bool, only: bool,
                         pk: Packet)
    requires ForwardInv(start, s, d, no, alone, only) && AnsweredWith(s, d, no)
    requires pk in s.flight && pk.msg.RREP? && pk.source != d.dst
    ensures pk.to in s.nodes && pk.to != d.dst && !alone && SignedDiff(no, pk.msg.rrep.dstSeqno) > 0
    ensures var m, t := RecvAodv(s.nodes[pk.to], pk.msg, pk.from).node, TrailOf(s.trails, d.dst);
      && (pk.to !in t ==> OffTrail(start[pk.to], m, pk.to, d, no, alone))
      && (Current(s.nodes[pk.to], d.dst, no) ==> Lookup(m.table, d.dst) == Lookup(s.nodes[pk.to].table, d.dst))
  {
    hide RecvAodv, ReplyInv, OffTrail, OnTrail;
    NotToDestination(s, d, pk);
    ReplyFacts(s, d, pk);
    var t, n, p := TrailOf(s.trails, d.dst), s.nodes[pk.to], pk.msg.rrep;
    assert NumberOk(p, pk.source, t, d, no, alone);
    OlderAtNode(start[pk.to], n, p, pk.from, d, no);
  }

  lemma ReplyComes(start: map<Addr, NodeState>, s: Net, d: Discovery, no: u32, alone: bool, only: bool, pk: Packet,
                   reach: set<Addr>)
    requires ForwardInv(start, s, d, no, alone, only) && Enabled(s, Deliver(pk, reach)) && pk.msg.RREP?
    ensures ForwardInv(start, Receive(s, d, pk, reach), d, no, alone, only)
  {
    hide RecvAodv, Post, Receive, Entries, Numbers, ReplyInv, OffTrail, OnTrail, Trail, Answerers, Fresh, Flagged, Inv;
    var y, n, s' := pk.to, s.nodes[pk.to], Receive(s, d, pk, reach);
    NotToDestination(s, d, pk);
    ReplyFacts(s, d, pk);
    ReplyReceived(s, d, pk, reach);
    assert Inv(s, d) by { InvOf(s, d); }
    ReceivedParts(s, d, pk, reach);
    var out := NextReply(s, d, pk, reach);
    var t, r := TrailOf(s.trails, d.dst), RecvAodv(n, pk.msg, pk.from);
    var sent := Post(y, r.sends, reach, pk.source);
    NoRequests(s, d, pk, reach);
    FlagsAfter(s.flight, only, pk, sent);
    FreshAfter(start, s.nodes, s.joins, d, y, r.node, s.joins);
    if AnsweredWith(s', d, no) {
      assert AnsweredWith(s, d, no);
      if pk.source == d.dst {
        OwnReplyStored(start, s, d, no, alone, only, pk);
        OnlyOwn(s, d, pk);
        NumbersAfter(s.flight, t, d, no, alone, pk, sent, t + [y]);
        TrailComes(start, s.nodes, t, d, no, alone, y, r.node);
      } else {
        OtherReplyStored(start, s, d, no, alone, only, pk);
        NumbersAfter(s.flight, t, d, no, alone, pk, sent, t);
        EntryStays(start, s.nodes, t, d, no, alone, y, r.node);
      }
    }
  }

  lemma InvOf(s: Net, d: Discovery)
    requires ReplyInv(s, d)
    ensures Inv(s, d)
  {
  }

  /** Once its packet is taken out of flight, no other packet carries the same reply. */
  lemma OnlyOwn(s: Net, d: Discovery, pk: Packet)
    requires ReplyInv(s, d) && pk in s.flight && pk.msg.RREP?
    ensures forall o :: o in s.flight - multiset{pk} && o.msg.RREP? ==> o.source != pk.source
  {
    forall o | o in s.flight - multiset{pk} && o.msg.RREP? ensures o.source != pk.source {
      assert o in s.flight;
    }
  }

  // ----- every step keeps the invariant -----

  lemma LossKeeps(start: map<Addr, NodeState>, s: Net, d: Discovery, no: u32, alone: bool, only: bool, pk: Packet)
    requires ForwardInv(start, s, d, no, alone, only) && Enabled(s, Lose(pk))
    ensures ForwardInv(start, Apply(s, d, Lose(pk)), d, no, alone, only)
  {
    hide Entries, Numbers, ReplyInv, Flagged, Fresh, Answerers;
    ReplyStepKeeps(s, d, Lose(pk));
    var t := TrailOf(s.trails, d.dst);
    FlagsAfter(s.flight, only, pk, multiset{});
    assert s.flight - multiset{pk} + multiset{} == s.flight - multiset{pk};
    if AnsweredWith(s, d, no) {
      NumbersAfter(s.flight, t, d, no, alone, pk, multiset{}, t);
    }
  }

  lemma ForwardStepKeeps(start: map<Addr, NodeState>, s: Net, d: Discovery, no: u32, alone: bool, only: bool,
                         step: Step)
    requires ForwardInv(start, s, d, no, alone, only) && Enabled(s, step)
    ensures ForwardInv(start, Apply(s, d, step), d, no, alone, only)
  {
    hide ForwardInv, Receive;
    match step
    case Lose(pk) => LossKeeps(start, s, d, no, alone, only, pk);
    case Deliver(pk, reach) =>
      if pk.msg.RREP? {
        ReplyComes(start, s, d, no, alone, only, pk, reach);
      } else if pk.msg.RREQ? && (d.orig, d.id) !in s.nodes[pk.to].seen {
        if pk.to == d.dst {
          DestinationAccepts(start, s, d, no, alone, only, pk, reach);
        } else {
          RelayAccepts(start, s, d, no, alone, only, pk, reach);
        }
      } else {
        OtherArrives(start, s, d, no, alone, only, pk, reach);
      }
  }

  lemma ForwardLaunch(nodes: map<Addr, NodeState>, d: Discovery, only: bool, reach: set<Addr>, no: u32, alone: bool)
    requires Quiet(nodes, d) && Answerers(nodes, d, no, alone, only) && reach <= nodes.Keys - {d.orig}
    ensures ForwardInv(nodes, Launch(nodes, d, only, reach), d, no, alone, only)
  {
    assert d.orig in nodes;
    hide ReplyInv, Answerers, Quiet, Entries, Launch, Fresh;
    ReplyLaunch(nodes, d, only, reach);
    LaunchSends(nodes, d, only, reach);
    LaunchTables(nodes, d, only, reach, no, alone);
  }

  lemma LaunchSends(nodes: map<Addr, NodeState>, d: Discovery, only: bool, reach: set<Addr>)
    requires d.orig in nodes
    ensures forall pk :: pk in Launch(nodes, d, only, reach).flight ==>
      pk.msg.RREQ? && pk.msg.rreq.destinationOnly == only
  {
    hide Post;
    var r := SendRequest(nodes[d.orig], d.dst, only);
    forall pk | pk in Launch(nodes, d, only, reach).flight
      ensures pk.msg.RREQ? && pk.msg.rreq.destinationOnly == only
    {
      Posted(d.orig, r.sends, reach, d.orig, pk);
    }
  }

  lemma LaunchTables(nodes: map<Addr, NodeState>, d: Discovery, only: bool, reach: set<Addr>, no: u32, alone: bool)
    requires d.orig in nodes
    ensures var s := Launch(nodes, d, only, reach);
      && s.trails == map[] && Fresh(nodes, s.nodes, s.joins, d) && Entries(nodes, s.nodes, [], d, no, alone)
  {
    hide Post;
    assert Launch(nodes, d, only, reach).nodes.Keys == nodes.Keys;
  }

  lemma {:induction false} ForwardRunKeeps(nodes: map<Addr, NodeState>, d: Discovery, only: bool, reach: set<Addr>,
                                           steps: seq<Step>, no: u32, alone: bool)
    requires Quiet(nodes, d) && Answerers(nodes, d, no, alone, only) && reach <= nodes.Keys - {d.orig}
    requires Legal(Launch(nodes, d, only, reach), d, steps)
    ensures ForwardInv(nodes, Execute(Launch(nodes, d, only, reach), d, steps), d, no, alone, only)
  {
    hide ForwardInv, Answerers;
    if steps == [] {
      ForwardLaunch(nodes, d, only, reach, no, alone);
    } else {
      var n := |steps| - 1;
      ForwardRunKeeps(nodes, d, only, reach, steps[..n], no, alone);
      ForwardStepKeeps(nodes, Execute(Launch(nodes, d, only, reach), d, steps[..n]), d, no, alone, only, steps[n]);
    }
  }

  // ----- the main results -----

  /** Following next hops from the end of the trail walks it back to the destination, one stored hop at a time. */
  ghost predicate ExactPath(nodes: map<Addr, NodeState>, t: seq<Addr>, dst: Addr, no: u32) {
    forall i :: 1 <= i < |t| ==> t[i] in nodes && ForwardAt(nodes[t[i]], dst, no, i, t[i - 1])
  }

  /** Every node on the trail but the originator found an entry that yields to no, or none. */
  ghost predicate TrailYields(start: map<Addr, NodeState>, t: seq<Addr>, d: Discovery, no: u32) {
    forall i :: 1 <= i < |t| && t[i] != d.orig ==> t[i] in start && FoundYields(start[t[i]], t[i - 1], d.dst, no)
  }

  /** Every node on the trail but the originator found an entry that the offer replaces or equals, or none. */
  ghost predicate TrailTakes(start: map<Addr, NodeState>, t: seq<Addr>, d: Discovery, no: u32) {
    forall i :: 1 <= i < |t| && t[i] != d.orig ==>
      && t[i] in start
      && Settled(Heard(start[t[i]], t[i - 1], d.dst), Exact(no, i, t[i - 1])) == Exact(no, i, t[i - 1])
  }

  /**
   * In every reachable state in which the destination has answered with number no, and whoever could answer in its
   * place has an older route: if the entries that the nodes on the trail of its reply had at the start yield to no,
   * each of them stores the exact hop count and next hop. Entries elsewhere do not matter.
   */
  lemma ForwardPathTheorem(nodes: map<Addr, NodeState>, d: Discovery, destinationOnly: bool,
                           reach: set<Addr>, steps: seq<Step>)
    requires Quiet(nodes, d) && reach <= nodes.Keys - {d.orig}
    requires Legal(Launch(nodes, d, destinationOnly, reach), d, steps)
    ensures var s := Execute(Launch(nodes, d, destinationOnly, reach), d, steps);
      d.dst in s.nodes &&
      (d.dst in s.trails && AnswersOlder(nodes, d, s.nodes[d.dst].seqNo)
          && TrailYields(nodes, s.trails[d.dst], d, s.nodes[d.dst].seqNo) ==>
         ExactPath(s.nodes, s.trails[d.dst], d.dst, s.nodes[d.dst].seqNo))
  {
    hide Entries, Numbers, ReplyInv, Fresh, Flagged, AnswersOlder, TrailYields, ExactPath, Execute, Legal, Launch;
    NodesStay(nodes, d, destinationOnly, reach, steps);
    var s := Execute(Launch(nodes, d, destinationOnly, reach), d, steps);
    var no := s.nodes[d.dst].seqNo;
    if d.dst in s.trails && AnswersOlder(nodes, d, no) && TrailYields(nodes, s.trails[d.dst], d, no) {
      ForwardRunKeeps(nodes, d, destinationOnly, reach, steps, no, false);
      ExactIfYields(nodes, s.nodes, s.trails[d.dst], d, no);
    }
  }

  lemma ExactIfYields(start: map<Addr, NodeState>, nodes: map<Addr, NodeState>, t: seq<Addr>, d: Discovery, no: u32)
    requires Entries(start, nodes, t, d, no, false) && TrailYields(start, t, d, no)
    ensures ExactPath(nodes, t, d.dst, no)
  {
    hide FoundYields, ForwardAt, Heard;
    forall i | 1 <= i < |t| ensures t[i] in nodes && ForwardAt(nodes[t[i]], d.dst, no, i, t[i - 1]) {
      assert OnTrail(start[t[i]], nodes[t[i]], t[i], d, no, false, i, t[i - 1]);
    }
  }

  /**
   * Exactly when the path is exact, if nobody answers in the destination's place: when every node on the trail
   * found at the start, once it has heard its predecessor, an entry that the offer replaces or equals, or none.
   */
  lemma ForwardPathIff(nodes: map<Addr, NodeState>, d: Discovery, destinationOnly: bool, reach: set<Addr>,
                       steps: seq<Step>)
    requires Quiet(nodes, d) && (destinationOnly || NoRoute(nodes, d)) && reach <= nodes.Keys - {d.orig}
    requires Legal(Launch(nodes, d, destinationOnly, reach), d, steps)
    ensures var s := Execute(Launch(nodes, d, destinationOnly, reach), d, steps);
      d.dst in s.nodes &&
      (d.dst in s.trails ==>
         var t, no := s.trails[d.dst], s.nodes[d.dst].seqNo;
         && (ExactPath(s.nodes, t, d.dst, no) <==> TrailTakes(nodes, t, d, no))
         && (NoRoute(nodes, d) ==> (ExactPath(s.nodes, t, d.dst, no) <==> TrailYields(nodes, t, d, no))))
  {
    hide Entries, Numbers, Fresh, Flagged, NoRoute, TrailYields, TrailTakes, ExactPath, Execute, Legal, Launch;
    hide Trail, Inv, Replies;
    NodesStay(nodes, d, destinationOnly, reach, steps);
    var s := Execute(Launch(nodes, d, destinationOnly, reach), d, steps);
    var no := s.nodes[d.dst].seqNo;
    if d.dst in s.trails {
      ForwardRunKeeps(nodes, d, destinationOnly, reach, steps, no, true);
      assert Trail(s.trails[d.dst], d.dst, s.joins, d.orig);
      TrailHead(s.trails[d.dst], d.dst, s.joins, d.orig);
      ExactIffTakes(nodes, s.nodes, s.trails[d.dst], d, no);
      TakesIffYields(nodes, s.trails[d.dst], d, no);
    }
  }

  lemma ExactIffTakes(start: map<Addr, NodeState>, nodes: map<Addr, NodeState>, t: seq<Addr>, d: Discovery, no: u32)
    requires Entries(start, nodes, t, d, no, true)
    ensures ExactPath(nodes, t, d.dst, no) <==> TrailTakes(start, t, d, no)
  {
    hide Settled, Heard, FoundYields;
    forall i | 1 <= i < |t| && t[i] != d.orig
      ensures t[i] in nodes && t[i] in start
      ensures ForwardAt(nodes[t[i]], d.dst, no, i, t[i - 1])
         <==> Settled(Heard(start[t[i]], t[i - 1], d.dst), Exact(no, i, t[i - 1])) == Exact(no, i, t[i - 1])
    {
      assert OnTrail(start[t[i]], nodes[t[i]], t[i], d, no, true, i, t[i - 1]);
    }
    forall i | 1 <= i < |t| && t[i] == d.orig ensures t[i] in nodes && ForwardAt(nodes[t[i]], d.dst, no, i, t[i - 1]) {
      assert OnTrail(start[t[i]], nodes[t[i]], t[i], d, no, true, i, t[i - 1]);
    }
  }

  lemma TrailHead(t: seq<Addr>, x: Addr, joins: map<Addr, Join>, orig: Addr)
    requires Trail(t, x, joins, orig)
    ensures t != [] && t[0] == x && x !in t[1..]
  {
    TrailDistinct(t, x, joins, orig);
  }

  /** Where no VALID entry has a valid number, taking the offer is yielding to its number. */
  lemma TakesIffYields(start: map<Addr, NodeState>, t: seq<Addr>, d: Discovery, no: u32)
    requires t != [] && d.dst !in t[1..]
    ensures NoRoute(start, d) ==> (TrailTakes(start, t, d, no) <==> TrailYields(start, t, d, no))
  {
    if NoRoute(start, d) {
      forall i | 1 <= i < |t| && t[i] != d.orig && t[i] in start
        ensures Settled(Heard(start[t[i]], t[i - 1], d.dst), Exact(no, i, t[i - 1])) == Exact(no, i, t[i - 1])
           <==> FoundYields(start[t[i]], t[i - 1], d.dst, no)
      {
        assert t[1..][i - 1] == t[i];
        OneTakes(start[t[i]], t[i - 1], d.dst, no, i);
      }
    }
  }

  lemma OneTakes(n: NodeState, before: Addr, dst: Addr, no: u32, i: nat)
    requires dst in n.table ==> !(n.table[dst].validSeqNo && n.table[dst].flag == VALID)
    ensures Settled(Heard(n, before, dst), Exact(no, i, before)) == Exact(no, i, before)
       <==> FoundYields(n, before, dst, no)
  {
  }
}
