/**
 * The path that the RREP of an intermediate node leaves: the destination's later answer may take entries on it
 * over, but nothing else makes them worse.
 */
module AodvStored {
  import opened Sequences
  import opened Words
  import opened Options
  import opened AodvNode
  import opened AodvFlood
  import opened AodvReply
  import opened AodvForward

  /** The answering node, the route it has at the start, and the number the destination answers with. */
  datatype Case = Case(x: Addr, e: Route, no: u32)

  /** An entry that the RREP of x replaces, or that the destination's answer has left. */
  predicate Passive(r: Option<Route>, c: Case, searching: bool) {
    || r.None?
    || Yields(r.value, c.e.seqNo)
    || (r.value.validSeqNo && r.value.seqNo == c.no && r.value.flag == VALID)
    || (searching && r.value.flag == IN_SEARCH)
  }

  /** A VALID route with the destination's answer, or with the number of x and no more than i hops on top. */
  predicate Stored(r: Option<Route>, c: Case, i: nat) {
    && r.Some? && r.value.validSeqNo && r.value.flag == VALID
    && (r.value.seqNo == c.no || (r.value.seqNo == c.e.seqNo && r.value.hop <= c.e.hop + i))
  }

  /** The entry after a RREP; the originator takes any while it searches. */
  function Taken(prior: Option<Route>, offer: Route, searching: bool): Option<Route> {
    Some(if searching && prior.Some? && prior.value.flag == IN_SEARCH then offer else Settled(prior, offer))
  }

  /**
   * Only x has a route as new as its own, the destination's answer is newer than all of them, and the hop counts
   * on the way from x do not wrap.
   */
  ghost predicate Freshest(nodes: map<Addr, NodeState>, d: Discovery, c: Case) {
    && c.x in nodes && c.x != d.orig && c.x != d.dst && d.dst in nodes[c.x].table && nodes[c.x].table[d.dst] == c.e
    && c.e.validSeqNo && c.e.flag == VALID && c.e.hop + |nodes| <= TWO_8
    && AnswersOlder(nodes, d, c.no)
    && forall y :: y in nodes && y != d.orig && y != d.dst && y != c.x && d.dst in nodes[y].table ==>
         Yields(nodes[y].table[d.dst], c.e.seqNo)
  }

  // ----- what one RREP does to an entry -----

  /** The destination's answer. */
  lemma OwnTaken(n: NodeState, sender: Addr, dst: Addr, offer: Route, c: Case, searching: bool, i: nat)
    requires offer.validSeqNo && offer.flag == VALID && offer.seqNo == c.no && SignedDiff(c.no, c.e.seqNo) > 0
    ensures var before, after := Lookup(n.table, dst), Taken(Heard(n, sender, dst), offer, searching);
      && (Passive(before, c, searching) ==> Passive(after, c, searching))
      && (Stored(before, c, i) ==> Stored(after, c, i))
  {
  }

  /** The RREP of x itself. */
  lemma SameTaken(n: NodeState, sender: Addr, dst: Addr, offer: Route, c: Case, searching: bool, i: nat)
    requires offer.validSeqNo && offer.flag == VALID && offer.seqNo == c.e.seqNo && offer.hop == c.e.hop + i
    requires sender != dst && SignedDiff(c.no, c.e.seqNo) > 0 && Passive(Lookup(n.table, dst), c, searching)
    ensures Stored(Taken(Heard(n, sender, dst), offer, searching), c, i)
  {
  }

  /** The RREP of another node. */
  lemma OtherTaken(n: NodeState, sender: Addr, dst: Addr, offer: Route, c: Case, searching: bool, i: nat)
    requires offer.validSeqNo && SignedDiff(c.e.seqNo, offer.seqNo) > 0 && SignedDiff(c.no, offer.seqNo) > 0
    requires sender != dst
    ensures var before, after := Lookup(n.table, dst), Taken(Heard(n, sender, dst), offer, searching);
      && (Passive(before, c, searching) ==> Passive(after, c, searching))
      && (Stored(before, c, i) ==> Stored(after, c, i))
  {
    HeardYields(n, sender, dst, c.no);
    hide Heard;
  }

  lemma AtReceiver(n: NodeState, p: Rrep, sender: Addr, d: Discovery)
    requires p.dst == d.dst && p.origin == d.orig && d.orig != d.dst && sender != d.orig
    requires n.addr != d.orig ==> d.orig in n.table && n.table[d.orig].flag == VALID
    ensures Lookup(RecvAodv(n, RREP(p), sender).node.table, d.dst)
         == Taken(Heard(n, sender, d.dst), Offer(p, sender), n.addr == d.orig)
  {
    hide RecvAodv;
    if n.addr == d.orig {
      ArrivedReply(n, p, sender);
    } else {
      RelayedReply(n, p, sender);
    }
  }

  // ----- the invariant -----

  ghost predicate Tables(nodes: map<Addr, NodeState>, t: seq<Addr>, d: Discovery, c: Case) {
    && (forall y :: y in nodes && y !in t && y != c.x && y != d.dst ==>
          Passive(Lookup(nodes[y].table, d.dst), c, y == d.orig))
    && (forall i :: 1 <= i < |t| ==> t[i] in nodes && Stored(Lookup(nodes[t[i]].table, d.dst), c, i))
  }

  /** What a RREP in flight offers, by the node that answered. */
  ghost predicate Offers(p: Rrep, source: Addr, t: seq<Addr>, d: Discovery, c: Case) {
    if source == d.dst then p.dstSeqno == c.no
    else if source == c.x then p.dstSeqno == c.e.seqNo && p.hop == c.e.hop + |t| - 1
    else SignedDiff(c.e.seqNo, p.dstSeqno) > 0 && SignedDiff(c.no, p.dstSeqno) > 0
  }

  ghost predicate AllOffer(flight: multiset<Packet>, t: seq<Addr>, d: Discovery, c: Case) {
    forall pk :: pk in flight && pk.msg.RREP? ==> Offers(pk.msg.rrep, pk.source, t, d, c)
  }

  ghost predicate StoredInv(start: map<Addr, NodeState>, s: Net, d: Discovery, c: Case) {
    && ReplyInv(s, d) && Fresh(start, s.nodes, s.joins, d) && Freshest(start, d, c)
    && (AnsweredWith(s, d, c.no) ==>
          var t := TrailOf(s.trails, c.x);
          Tables(s.nodes, t, d, c) && AllOffer(s.flight, t, d, c))
  }

  // ----- every step keeps the invariant -----

  lemma OffersAfter(flight: multiset<Packet>, t: seq<Addr>, d: Discovery, c: Case, pk: Packet,
                    sent: multiset<Packet>, t': seq<Addr>)
    requires AllOffer(flight, t, d, c)
    requires t' == t || forall o :: o in flight - multiset{pk} && o.msg.RREP? ==> o.source != c.x
    requires forall o :: o in sent && o.msg.RREP? ==> Offers(o.msg.rrep, o.source, t', d, c)
    ensures AllOffer(flight - multiset{pk} + sent, t', d, c)
  {
    forall o | o in flight - multiset{pk} + sent && o.msg.RREP? ensures Offers(o.msg.rrep, o.source, t', d, c) {
      assert o in sent || (o in flight - multiset{pk} && o in flight);
    }
  }

  /** A node keeps its place, or the RREP of x has come to it. */
  lemma TablesAfter(nodes: map<Addr, NodeState>, t: seq<Addr>, d: Discovery, c: Case, y: Addr, n: NodeState,
                    t': seq<Addr>)
    requires Tables(nodes, t, d, c) && y in nodes
    requires if t' == t then
        && (y !in t && y != c.x && y != d.dst ==> Passive(Lookup(n.table, d.dst), c, y == d.orig))
        && forall i :: 1 <= i < |t| && t[i] == y ==> Stored(Lookup(n.table, d.dst), c, i)
      else t' == t + [y] && y !in t && (t == [] || Stored(Lookup(n.table, d.dst), c, |t|))
    ensures Tables(nodes[y := n], t', d, c)
  {
    hide Stored, Passive, Lookup;
    var after := nodes[y := n];
    forall i | 1 <= i < |t'| ensures t'[i] in after && Stored(Lookup(after[t'[i]].table, d.dst), c, i) {
      if i < |t| {
        assert t[i] == t'[i] && Stored(Lookup(nodes[t[i]].table, d.dst), c, i);
      }
    }
    forall z | z in after && z !in t' && z != c.x && z != d.dst
      ensures Passive(Lookup(after[z].table, d.dst), c, z == d.orig)
    {
      assert z !in t;
    }
  }

  /** The trail of a reply leaves at least one node out. */
  lemma TrailRoom(s: Net, d: Discovery, pk: Packet)
    requires ReplyInv(s, d) && pk in s.flight && pk.msg.RREP?
    ensures pk.source in s.trails && |s.trails[pk.source]| < |s.nodes|
  {
    NotToDestination(s, d, pk);
    var t := s.trails[pk.source] + [pk.to];
    TrailDistinct(t, pk.source, s.joins, d.orig);
    hide Trail, Replies, Flight, ReverseRoutes, TreeShape;
    forall i | 0 <= i < |t| ensures t[i] in s.nodes.Keys {
      assert t[i] in t;
    }
    DistinctBound(t, s.nodes.Keys);
  }

  /** What a received RREP stores where it arrives. */
  lemma ReplyStores(start: map<Addr, NodeState>, s: Net, d: Discovery, c: Case, pk: Packet)
    requires StoredInv(start, s, d, c) && AnsweredWith(s, d, c.no) && pk in s.flight && pk.msg.RREP?
    ensures pk.to in s.nodes && pk.to != d.dst && pk.source in s.trails
    ensures var t, r := TrailOf(s.trails, c.x), Lookup(RecvAodv(s.nodes[pk.to], pk.msg, pk.from).node.table, d.dst);
      if pk.source == c.x then
        && pk.to !in t && t != [] && (pk.to != c.x ==> Stored(r, c, |t|))
        && Offers(Next(pk.msg.rrep), pk.source, t + [pk.to], d, c)
      else
        && (pk.to !in t && pk.to != c.x ==> Passive(r, c, pk.to == d.orig))
        && (forall i :: 1 <= i < |t| && t[i] == pk.to ==> Stored(r, c, i))
        && Offers(Next(pk.msg.rrep), pk.source, t, d, c)
  {
    hide RecvAodv, Taken, Stored, Passive, ReplyInv, AnswersOlder;
    NotToDestination(s, d, pk);
    ReplyFacts(s, d, pk);
    TrailRoom(s, d, pk);
    var n, p, t := s.nodes[pk.to], pk.msg.rrep, TrailOf(s.trails, c.x);
    assert s.nodes.Keys == start.Keys && |s.nodes| == |start| by { SameSize(start, s.nodes); }
    assert SignedDiff(c.no, c.e.seqNo) > 0 by { Newer(start, d, c); }
    assert Offers(p, pk.source, t, d, c);
    AtReceiver(n, p, pk.from, d);
    var offer, searching := Offer(p, pk.from), pk.to == d.orig;
    hide Yields, Trail, Fresh;
    if pk.source == c.x {
      SourceHead(s.trails[c.x], c.x, s.joins, d.orig);
      SameTaken(n, pk.from, d.dst, offer, c, searching, |t|);
    } else if pk.source == d.dst {
      OwnTaken(n, pk.from, d.dst, offer, c, searching, 0);
      forall i | 1 <= i < |t| && t[i] == pk.to ensures Stored(Taken(Heard(n, pk.from, d.dst), offer, searching), c, i) {
        OwnTaken(n, pk.from, d.dst, offer, c, searching, i);
      }
    } else {
      OtherTaken(n, pk.from, d.dst, offer, c, searching, 0);
      forall i | 1 <= i < |t| && t[i] == pk.to ensures Stored(Taken(Heard(n, pk.from, d.dst), offer, searching), c, i) {
        OtherTaken(n, pk.from, d.dst, offer, c, searching, i);
      }
    }
  }

  lemma SourceHead(t: seq<Addr>, x: Addr, joins: map<Addr, Join>, orig: Addr)
    requires Trail(t, x, joins, orig)
    ensures t != [] && t[0] == x && x in t
  {
  }

  lemma SameSize(start: map<Addr, NodeState>, nodes: map<Addr, NodeState>)
    requires start.Keys == nodes.Keys
    ensures |start| == |nodes|
  {
    assert |start| == |start.Keys| && |nodes| == |nodes.Keys|;
  }

  lemma Newer(start: map<Addr, NodeState>, d: Discovery, c: Case)
    requires Freshest(start, d, c)
    ensures SignedDiff(c.no, c.e.seqNo) > 0 && c.x != d.dst
  {
  }

  lemma StoredReply(start: map<Addr, NodeState>, s: Net, d: Discovery, c: Case, pk: Packet, reach: set<Addr>)
    requires StoredInv(start, s, d, c) && Enabled(s, Deliver(pk, reach)) && pk.msg.RREP?
    ensures StoredInv(start, Receive(s, d, pk, reach), d, c)
  {
    hide RecvAodv, Post, Receive, Tables, AllOffer, ReplyInv, Trail, Fresh, Inv, Freshest, Stored, Passive, Offers;
    var y, n, s' := pk.to, s.nodes[pk.to], Receive(s, d, pk, reach);
    NotToDestination(s, d, pk);
    ReplyFacts(s, d, pk);
    InvOf(s, d);
    ReplyReceived(s, d, pk, reach);
    ReceivedParts(s, d, pk, reach);
    var out := NextReply(s, d, pk, reach);
    var t, r := TrailOf(s.trails, c.x), RecvAodv(n, pk.msg, pk.from);
    var sent, t' := Post(y, r.sends, reach, pk.source), TrailOf(s'.trails, c.x);
    FreshAfter(start, s.nodes, s.joins, d, y, r.node, s.joins);
    if AnsweredWith(s', d, c.no) {
      assert AnsweredWith(s, d, c.no);
      ReplyStores(start, s, d, c, pk);
      if pk.source == c.x {
        OnlyOwn(s, d, pk);
      }
      OffersAfter(s.flight, t, d, c, pk, sent, t');
      TablesAfter(s.nodes, t, d, c, y, r.node, t');
    }
  }

  /** A RREP that an intermediate node answers with carries the hop count of its entry, truncated to 8 bits. */
  lemma AnswerHop(n: NodeState, q: Rreq, sender: Addr)
    requires (q.origin, q.id) !in n.seen && q.dst != n.addr && q.dst != q.origin && sender != q.dst
    ensures var r := RecvAodv(n, RREQ(q), sender);
      forall i :: 0 <= i < |r.sends| && r.sends[i].msg.RREP? ==>
        q.dst in n.table && r.sends[i].msg.rrep.hop == n.table[q.dst].hop % TWO_8
  {
  }

  /** What an intermediate node answers with is what its entry of the start makes it offer. */
  lemma RelayOffers(start: map<Addr, NodeState>, n: NodeState, y: Addr, d: Discovery, c: Case, pk: Packet,
                    reach: set<Addr>, t: seq<Addr>)
    requires Freshest(start, d, c) && y in start && y != d.orig && y != d.dst && n.addr == y
    requires Lookup(n.table, d.dst) == Lookup(start[y].table, d.dst)
    requires pk.msg.RREQ? && pk.msg.rreq.dst == d.dst && pk.msg.rreq.origin == d.orig && d.orig != d.dst
    requires (d.orig, pk.msg.rreq.id) !in n.seen && pk.from != d.dst && |start| > 0
    requires y == c.x ==> |t| == 1
    ensures forall o :: o in Post(y, RecvAodv(n, pk.msg, pk.from).sends, reach, y) && o.msg.RREP? ==>
      Offers(o.msg.rrep, o.source, t, d, c)
  {
    hide RecvAodv, Post;
    RequestAtRelay(n, pk.msg.rreq, pk.from);
    AnswerHop(n, pk.msg.rreq, pk.from);
    var sends := RecvAodv(n, pk.msg, pk.from).sends;
    forall o | o in Post(y, sends, reach, y) && o.msg.RREP? ensures Offers(o.msg.rrep, o.source, t, d, c) {
      Posted(y, sends, reach, y, o);
    }
  }

  lemma DestinationOffers(n: NodeState, d: Discovery, c: Case, pk: Packet, reach: set<Addr>, t: seq<Addr>)
    requires pk.msg.RREQ? && pk.msg.rreq.dst == d.dst && n.addr == d.dst
    requires (pk.msg.rreq.origin, pk.msg.rreq.id) !in n.seen && RecvAodv(n, pk.msg, pk.from).node.seqNo == c.no
    ensures forall o :: o in Post(d.dst, RecvAodv(n, pk.msg, pk.from).sends, reach, d.dst) && o.msg.RREP? ==>
      Offers(o.msg.rrep, o.source, t, d, c)
  {
    hide RecvAodv, Post;
    AnswerAt(n, pk.msg.rreq, pk.from);
    PostedOne(d.dst, pk.from, RecvAodv(n, pk.msg, pk.from).sends[0].msg, reach, d.dst);
  }

  /** Whoever accepts and answers offers what its place in the invariant says. */
  lemma AcceptedOffers(start: map<Addr, NodeState>, s: Net, d: Discovery, c: Case, pk: Packet, reach: set<Addr>)
    requires StoredInv(start, s, d, c) && Enabled(s, Deliver(pk, reach)) && pk.msg.RREQ?
    requires (d.orig, d.id) !in s.nodes[pk.to].seen && AnsweredWith(Receive(s, d, pk, reach), d, c.no)
    ensures var sends, t := RecvAodv(s.nodes[pk.to], pk.msg, pk.from).sends,
        TrailOf(Receive(s, d, pk, reach).trails, c.x);
      forall o :: o in Post(pk.to, sends, reach, pk.to) && o.msg.RREP? ==> Offers(o.msg.rrep, o.source, t, d, c)
  {
    hide RecvAodv, Answers, Receive, Post, ReplyInv, Freshest, Offers, Tables, AllOffer;
    var y, n, t' := pk.to, s.nodes[pk.to], TrailOf(Receive(s, d, pk, reach).trails, c.x);
    SeenFacts(s, d, pk);
    RequestFacts(s, d, pk);
    hide Inv;
    var _ := AcceptedParts(s, d, pk, reach);
    var answer := AcceptedSends(s, d, pk, reach);
    if answer.Some? {
      if y == d.dst {
        DestinationOffers(n, d, c, pk, reach, t');
      } else {
        RelayOffers(start, n, y, d, c, pk, reach, t');
      }
    }
  }

  lemma StoredAccept(start: map<Addr, NodeState>, s: Net, d: Discovery, c: Case, pk: Packet, reach: set<Addr>)
    requires StoredInv(start, s, d, c) && Enabled(s, Deliver(pk, reach)) && pk.msg.RREQ?
    requires (d.orig, d.id) !in s.nodes[pk.to].seen
    ensures StoredInv(start, Receive(s, d, pk, reach), d, c)
  {
    hide RecvAodv, Answers, Receive, Post, ReplyInv, Inv, Tables, AllOffer, Freshest, Stored, Passive, Offers, Fresh;
    var t, y, n, s' := TrailOf(s.trails, c.x), pk.to, s.nodes[pk.to], Receive(s, d, pk, reach);
    SeenFacts(s, d, pk);
    RequestFacts(s, d, pk);
    RequestAccepted(s, d, pk, reach);
    var j := AcceptedParts(s, d, pk, reach);
    NotOnTrail(s, d, c.x, y);
    NoneOf(s, d, y);
    var r, t' := RecvAodv(n, pk.msg, pk.from), TrailOf(s'.trails, c.x);
    FreshAfter(start, s.nodes, s.joins, d, y, r.node, s.joins[y := j]);
    if AnsweredWith(s', d, c.no) {
      AcceptedOffers(start, s, d, c, pk, reach);
      if y != d.dst {
        RequestAtRelay(n, pk.msg.rreq, pk.from);
      }
      assert AnsweredWith(s, d, c.no);
      assert t' == t || (y == c.x && t' == t + [y] && t == []);
      OffersAfter(s.flight, t, d, c, pk, Post(y, r.sends, reach, y), t');
      StillPassive(s.nodes, t, d, c, y, r.node);
      TablesAfter(s.nodes, t, d, c, y, r.node, t');
    }
  }

  lemma StillPassive(nodes: map<Addr, NodeState>, t: seq<Addr>, d: Discovery, c: Case, y: Addr, n: NodeState)
    requires Tables(nodes, t, d, c) && y in nodes
    requires y == d.dst || Lookup(n.table, d.dst) == Lookup(nodes[y].table, d.dst)
    ensures y !in t && y != c.x && y != d.dst ==> Passive(Lookup(n.table, d.dst), c, y == d.orig)
    ensures y != d.dst ==> forall i :: 1 <= i < |t| && t[i] == y ==> Stored(Lookup(n.table, d.dst), c, i)
  {
    hide Stored, Passive;
  }

  lemma StoredOther(start: map<Addr, NodeState>, s: Net, d: Discovery, c: Case, pk: Packet, reach: set<Addr>)
    requires StoredInv(start, s, d, c) && Enabled(s, Deliver(pk, reach)) && !pk.msg.RREP?
    requires pk.msg.RREQ? ==> (d.orig, d.id) in s.nodes[pk.to].seen
    ensures StoredInv(start, Receive(s, d, pk, reach), d, c)
  {
    hide RecvAodv, Receive, Post, ReplyInv, Inv, Tables, AllOffer, Freshest, Stored, Passive, Offers, Fresh;
    var t, y, n, s' := TrailOf(s.trails, c.x), pk.to, s.nodes[pk.to], Receive(s, d, pk, reach);
    OtherFacts(s, d, pk);
    OtherParts(s, d, pk, reach);
    OtherReceived(s, d, pk, reach);
    NumberStays(n, pk.msg, pk.from);
    OtherAtNode(n, pk.msg, pk.from, d.dst);
    var r := RecvAodv(n, pk.msg, pk.from);
    FreshAfter(start, s.nodes, s.joins, d, y, r.node, s.joins);
    if AnsweredWith(s', d, c.no) {
      assert AnsweredWith(s, d, c.no);
      OffersAfter(s.flight, t, d, c, pk, multiset{}, t);
      StillPassive(s.nodes, t, d, c, y, r.node);
      Newer(start, d, c);
      NotOnOwn(s, d, c.x);
      TablesAfter(s.nodes, t, d, c, y, r.node, t);
    }
  }

  /** The destination is on no other node's trail. */
  lemma NotOnOwn(s: Net, d: Discovery, x: Addr)
    requires ReplyInv(s, d) && x != d.dst
    ensures d.dst !in TrailOf(s.trails, x)
  {
    if x in s.trails {
      var t := s.trails[x];
      assert Trail(t, x, s.joins, d.orig);
      forall i | 0 <= i < |t| ensures t[i] != d.dst {
        assert AtLevel(t, i, s.joins, d.orig) && (i > 0 ==> AtLevel(t, i - 1, s.joins, d.orig));
      }
    }
  }

  lemma StoredLoss(start: map<Addr, NodeState>, s: Net, d: Discovery, c: Case, pk: Packet)
    requires StoredInv(start, s, d, c) && Enabled(s, Lose(pk))
    ensures StoredInv(start, Apply(s, d, Lose(pk)), d, c)
  {
    hide Tables, AllOffer, ReplyInv, Fresh, Freshest;
    ReplyStepKeeps(s, d, Lose(pk));
    var t := TrailOf(s.trails, c.x);
    assert s.flight - multiset{pk} + multiset{} == s.flight - multiset{pk};
    if AnsweredWith(s, d, c.no) {
      OffersAfter(s.flight, t, d, c, pk, multiset{}, t);
    }
  }

  lemma StoredStep(start: map<Addr, NodeState>, s: Net, d: Discovery, c: Case, step: Step)
    requires StoredInv(start, s, d, c) && Enabled(s, step)
    ensures StoredInv(start, Apply(s, d, step), d, c)
  {
    hide StoredInv, Receive;
    match step
    case Lose(pk) => StoredLoss(start, s, d, c, pk);
    case Deliver(pk, reach) =>
      if pk.msg.RREP? {
        StoredReply(start, s, d, c, pk, reach);
      } else if pk.msg.RREQ? && (d.orig, d.id) !in s.nodes[pk.to].seen {
        StoredAccept(start, s, d, c, pk, reach);
      } else {
        StoredOther(start, s, d, c, pk, reach);
      }
  }

  lemma StoredLaunch(nodes: map<Addr, NodeState>, d: Discovery, destinationOnly: bool, reach: set<Addr>, c: Case)
    requires Quiet(nodes, d) && Freshest(nodes, d, c) && reach <= nodes.Keys - {d.orig}
    ensures StoredInv(nodes, Launch(nodes, d, destinationOnly, reach), d, c)
  {
    assert d.orig in nodes;
    ReplyLaunch(nodes, d, destinationOnly, reach);
    LaunchSends(nodes, d, destinationOnly, reach);
    LaunchTables(nodes, d, destinationOnly, reach, c.no, false);
    hide ReplyInv, Quiet, Fresh, Yields;
    LaunchPassive(nodes, d, destinationOnly, reach, c);
  }

  lemma LaunchPassive(nodes: map<Addr, NodeState>, d: Discovery, destinationOnly: bool, reach: set<Addr>, c: Case)
    requires d.orig in nodes && Freshest(nodes, d, c)
    ensures Tables(Launch(nodes, d, destinationOnly, reach).nodes, [], d, c)
  {
    hide Post, Yields;
  }

  lemma {:induction false} StoredRun(nodes: map<Addr, NodeState>, d: Discovery, destinationOnly: bool,
                                     reach: set<Addr>, steps: seq<Step>, c: Case)
    requires Quiet(nodes, d) && Freshest(nodes, d, c) && reach <= nodes.Keys - {d.orig}
    requires Legal(Launch(nodes, d, destinationOnly, reach), d, steps)
    ensures StoredInv(nodes, Execute(Launch(nodes, d, destinationOnly, reach), d, steps), d, c)
  {
    hide StoredInv, Freshest;
    if steps == [] {
      StoredLaunch(nodes, d, destinationOnly, reach, c);
    } else {
      var n := |steps| - 1;
      StoredRun(nodes, d, destinationOnly, reach, steps[..n], c);
      StoredStep(nodes, Execute(Launch(nodes, d, destinationOnly, reach), d, steps[..n]), d, c, steps[n]);
    }
  }

  // ----- the main result -----

  /**
   * In every reachable state: if x answers with a fresher route than any other relay has, each node at distance i
   * on the trail of its RREP holds a VALID route for the destination that carries the destination's own answer,
   * or the number of x and at most i hops more than the route of x.
   */
  lemma StoredPathTheorem(nodes: map<Addr, NodeState>, d: Discovery, destinationOnly: bool, reach: set<Addr>,
                          steps: seq<Step>, x: Addr)
    requires Quiet(nodes, d) && reach <= nodes.Keys - {d.orig} && x in nodes && d.dst in nodes[x].table
    requires Legal(Launch(nodes, d, destinationOnly, reach), d, steps)
    ensures var s := Execute(Launch(nodes, d, destinationOnly, reach), d, steps);
      && d.dst in s.nodes
      && var c := Case(x, nodes[x].table[d.dst], s.nodes[d.dst].seqNo);
         (x in s.trails && Freshest(nodes, d, c) ==>
            forall i :: 1 <= i < |s.trails[x]| ==>
              s.trails[x][i] in s.nodes && Stored(Lookup(s.nodes[s.trails[x][i]].table, d.dst), c, i))
  {
    hide Freshest, Execute, Legal, Launch, ReplyInv, Fresh, AllOffer, Stored;
    NodesStay(nodes, d, destinationOnly, reach, steps);
    var s := Execute(Launch(nodes, d, destinationOnly, reach), d, steps);
    var c := Case(x, nodes[x].table[d.dst], s.nodes[d.dst].seqNo);
    if x in s.trails && Freshest(nodes, d, c) {
      StoredRun(nodes, d, destinationOnly, reach, steps, c);
      assert Tables(s.nodes, s.trails[x], d, c);
    }
  }

  // ----- a route newer than the destination's own is lost -----

  /** Node 2 between nodes 1, 3 and 4; node 3 has a route to node 4 with a newer number than node 4 itself. */
  function StarNodes(): map<Addr, NodeState> {
    map[1 := NodeState(1, map[], {}, 0, 0),
        2 := NodeState(2, map[], {}, 0, 0),
        3 := NodeState(3, map[4 := Route(true, 5, 2, 9, VALID)], {}, 0, 0),
        4 := NodeState(4, map[], {}, 0, 0)]
  }

  function StarRequest(hop: byte): Rreq { Rreq(hop, 1, 4, true, 0, 1, 1, false) }

  /** Node 2 before the request, after it, and after the RREP of node 3. */
  function Middle(k: nat): NodeState {
    var back := Route(true, 1, 1, 1, VALID);
    if k == 0 then NodeState(2, map[], {}, 0, 0)
    else if k == 1 then NodeState(2, map[1 := back], {(1, 1)}, 0, 0)
    else
      var table := map[1 := back, 3 := Route(false, 0, 1, 3, VALID), 4 := Route(true, 5, 3, 3, VALID)];
      NodeState(2, table, {(1, 1)}, 0, 0)
  }

  lemma MiddleHears()
    ensures SendRequest(StarNodes()[1], 4, false).sends == [Broadcast(RREQ(StarRequest(0)))]
    ensures RecvAodv(Middle(0), RREQ(StarRequest(0)), 1) == Reaction(Middle(1), [Broadcast(RREQ(StarRequest(1)))])
    ensures RecvAodv(Middle(1), RREP(Rrep(2, 4, 5, 1, false)), 3)
         == Reaction(Middle(2), [Unicast(1, RREP(Rrep(3, 4, 5, 1, false)))])
    ensures var r := RecvAodv(Middle(2), RREP(Rrep(0, 4, 0, 1, false)), 4);
      4 in r.node.table && r.node.table[4] == Route(true, 0, 1, 4, VALID)
  {
  }

  lemma EndsHear()
    ensures RecvAodv(StarNodes()[3], RREQ(StarRequest(1)), 2).sends == [Unicast(2, RREP(Rrep(2, 4, 5, 1, false)))]
    ensures RecvAodv(StarNodes()[4], RREQ(StarRequest(1)), 2).sends == [Unicast(2, RREP(Rrep(0, 4, 0, 1, false)))]
    ensures RecvAodv(StarNodes()[4], RREQ(StarRequest(1)), 2).node.seqNo == 0
  {
  }

  lemma PostedBoth(msg: Message)
    ensures Post(2, [Broadcast(msg)], {3, 4}, 2) == multiset{Packet(2, 3, msg, 2), Packet(2, 4, msg, 2)}
  {
    assert [Broadcast(msg)][1..] == [];
    assert (set r | r in {3, 4} :: Packet(2, r, msg, 2)) == {Packet(2, 3, msg, 2), Packet(2, 4, msg, 2)};
  }

  const STAR: Discovery := Discovery(1, 4, 1)

  lemma StarQuiet()
    ensures StarNodes().Keys == {1, 2, 3, 4} && Quiet(StarNodes(), STAR)
  {
    assert StarNodes().Keys == {1, 2, 3, 4};
  }

  lemma StarLaunch()
    ensures 1 in StarNodes()
    ensures var s := Launch(StarNodes(), STAR, false, {2});
      && s.flight == multiset{Packet(1, 2, RREQ(StarRequest(0)), 1)} && s.nodes.Keys == {1, 2, 3, 4}
      && s.nodes[2] == Middle(0) && s.nodes[3] == StarNodes()[3] && s.nodes[4] == StarNodes()[4]
      && s.trails == map[]
  {
    MiddleHears();
    PostedTo(1, RREQ(StarRequest(0)), 2, 1);
    hide Post;
  }

  /** Node 2 passes the request of node 1 on to nodes 3 and 4. */
  lemma StarOut(s0: Net) returns (s: Net, e: Step)
    requires s0.flight == multiset{Packet(1, 2, RREQ(StarRequest(0)), 1)} && s0.nodes.Keys == {1, 2, 3, 4}
    requires s0.nodes[2] == Middle(0) && s0.trails == map[]
    ensures Enabled(s0, e) && s == Apply(s0, STAR, e)
    ensures s.flight == multiset{Packet(2, 3, RREQ(StarRequest(1)), 2), Packet(2, 4, RREQ(StarRequest(1)), 2)}
    ensures s.nodes == s0.nodes[2 := Middle(1)] && s.trails == map[]
  {
    MiddleHears();
    hide RecvAodv, SendRequest, Post, Middle;
    var pk, sends := Packet(1, 2, RREQ(StarRequest(0)), 1), [Broadcast(RREQ(StarRequest(1)))];
    assert pk in s0.flight;
    e := Deliver(pk, {3, 4});
    assert !Answers(sends);
    PostedBoth(RREQ(StarRequest(1)));
    s := Apply(s0, STAR, e);
    assert s0.flight - multiset{pk} + Post(2, sends, {3, 4}, 2) == Post(2, sends, {3, 4}, 2);
  }

  /** A node that hears pk sends one RREP to one neighbour. */
  lemma OneReply(s: Net, pk: Packet, to: Addr, p: Rrep) returns (s': Net, e: Step)
    requires pk in s.flight && pk.to in s.nodes && !pk.msg.RREP_ACK? && (pk.msg.RREP? ==> pk.source in s.trails)
    requires RecvAodv(s.nodes[pk.to], pk.msg, pk.from).sends == [Unicast(to, RREP(p))]
    ensures Enabled(s, e) && s' == Apply(s, STAR, e)
    ensures s'.flight == s.flight - multiset{pk} + multiset{Packet(pk.to, to, RREP(p), Source(pk))}
    ensures s'.nodes == s.nodes[pk.to := RecvAodv(s.nodes[pk.to], pk.msg, pk.from).node]
    ensures s'.trails == if pk.msg.RREP? then s.trails[pk.source := s.trails[pk.source] + [pk.to]]
                         else s.trails[pk.to := [pk.to]]
  {
    hide RecvAodv, Post;
    PostedOne(pk.to, to, RREP(p), {}, Source(pk));
    var sends := [Unicast(to, RREP(p))];
    assert sends[0].Unicast? && sends[0].msg.RREP?;
    e := Deliver(pk, {});
    s' := Apply(s, STAR, e);
  }

  /** Node 3 answers, and its RREP comes to node 2. */
  lemma StarThird(s1: Net) returns (s2: Net, e2: Step, s3: Net, e3: Step)
    requires s1.flight == multiset{Packet(2, 3, RREQ(StarRequest(1)), 2), Packet(2, 4, RREQ(StarRequest(1)), 2)}
    requires s1.nodes.Keys == {1, 2, 3, 4} && s1.nodes[2] == Middle(1) && s1.trails == map[]
    requires s1.nodes[3] == StarNodes()[3] && s1.nodes[4] == StarNodes()[4]
    ensures Enabled(s1, e2) && s2 == Apply(s1, STAR, e2) && Enabled(s2, e3) && s3 == Apply(s2, STAR, e3)
    ensures Packet(2, 4, RREQ(StarRequest(1)), 2) in s3.flight && s3.trails == map[3 := [3, 2]]
    ensures s3.nodes.Keys == {1, 2, 3, 4} && s3.nodes[2] == Middle(2) && s3.nodes[4] == StarNodes()[4]
  {
    MiddleHears();
    EndsHear();
    hide RecvAodv, Apply, Enabled, Middle, StarRequest, SendRequest;
    s2, e2 := OneReply(s1, Packet(2, 3, RREQ(StarRequest(1)), 2), 2, Rrep(2, 4, 5, 1, false));
    s3, e3 := OneReply(s2, Packet(3, 2, RREP(Rrep(2, 4, 5, 1, false)), 3), 1, Rrep(3, 4, 5, 1, false));
    assert [3] + [2] == [3, 2];
  }

  /** The destination answers node 2, which hears it directly. */
  lemma StarLast(s3: Net) returns (s4: Net, e4: Step, s5: Net, e5: Step)
    requires Packet(2, 4, RREQ(StarRequest(1)), 2) in s3.flight && s3.trails == map[3 := [3, 2]]
    requires s3.nodes.Keys == {1, 2, 3, 4} && s3.nodes[2] == Middle(2) && s3.nodes[4] == StarNodes()[4]
    ensures Enabled(s3, e4) && s4 == Apply(s3, STAR, e4) && Enabled(s4, e5) && s5 == Apply(s4, STAR, e5)
    ensures 3 in s5.trails && s5.trails[3] == [3, 2] && s5.nodes.Keys == {1, 2, 3, 4} && s5.nodes[4].seqNo == 0
    ensures 4 in s5.nodes[2].table && s5.nodes[2].table[4] == Route(true, 0, 1, 4, VALID)
  {
    MiddleHears();
    EndsHear();
    hide RecvAodv, Apply, Enabled, StarRequest, SendRequest;
    s4, e4 := OneReply(s3, Packet(2, 4, RREQ(StarRequest(1)), 2), 2, Rrep(0, 4, 0, 1, false));
    var answer := Rrep(0, 4, 0, 1, false);
    LastAnswer(s4.nodes[2], answer);
    s5, e5 := OneReply(s4, Packet(4, 2, RREP(answer), 4), 1, Next(answer));
  }

  lemma LastAnswer(n: NodeState, p: Rrep)
    requires n == Middle(2) && p == Rrep(0, 4, 0, 1, false)
    ensures RecvAodv(n, RREP(p), 4).sends == [Unicast(1, RREP(Next(p)))]
  {
  }

  /**
   * Why the destination's number has to be newer: here node 3 answers with number 5, and its RREP comes to node 2;
   * then node 2 hears the destination itself, drops what it has for it, and keeps the destination's number 0.
   */
  lemma NewerIsLost() returns (steps: seq<Step>)
    ensures Quiet(StarNodes(), STAR) && 3 in StarNodes() && 4 in StarNodes()[3].table
    ensures Legal(Launch(StarNodes(), STAR, false, {2}), STAR, steps)
    ensures var s := Execute(Launch(StarNodes(), STAR, false, {2}), STAR, steps);
      && 3 in s.trails && s.trails[3] == [3, 2] && 4 in s.nodes && s.nodes[4].seqNo == 0
      && 2 in s.nodes && 4 in s.nodes[2].table
      && SignedDiff(StarNodes()[3].table[4].seqNo, s.nodes[2].table[4].seqNo) > 0
  {
    StarQuiet();
    StarLaunch();
    hide Launch, Apply, Enabled, Quiet, Middle;
    var s0 := Launch(StarNodes(), STAR, false, {2});
    var s1, e1 := StarOut(s0);
    var s2, e2, s3, e3 := StarThird(s1);
    var s4, e4, s5, e5 := StarLast(s3);
    RunOn(s0, STAR, [], e1);
    RunOn(s0, STAR, [] + [e1], e2);
    RunOn(s0, STAR, [] + [e1] + [e2], e3);
    RunOn(s0, STAR, [] + [e1] + [e2] + [e3], e4);
    RunOn(s0, STAR, [] + [e1] + [e2] + [e3] + [e4], e5);
    steps := [] + [e1] + [e2] + [e3] + [e4] + [e5];
  }
}
