/**
 * How a discovery ends: after a bounded number of deliveries, and, where the neighbours stay the same and nothing
 * is lost, with the request accepted exactly where it can get to.
 */
module AodvCoverage {
  import opened Sequences
  import opened Words
  import opened Options
  import opened AodvNode
  import opened AodvFlood
  import opened AodvReply

  // ----- the number of deliveries -----

  /** What may still become of a packet: a RREP from level h has at most h hops to go, each with an ACK. */
  ghost function Weight(pk: Packet, joins: map<Addr, Join>): nat {
    if pk.msg.RREP? && pk.from in joins then 2 * joins[pk.from].hop else 1
  }

  ghost function Total(m: multiset<Packet>, joins: map<Addr, Join>): nat
    decreases |m|
  {
    if m == multiset{} then 0
    else
      var pk :| pk in m;
      Weight(pk, joins) + Total(m - multiset{pk}, joins)
  }

  /** The packet that Total takes out first. */
  lemma TotalFirst(m: multiset<Packet>, joins: map<Addr, Join>) returns (first: Packet)
    requires m != multiset{}
    ensures first in m && Total(m, joins) == Weight(first, joins) + Total(m - multiset{first}, joins)
  {
    hide Weight;
    first :| first in m && Total(m, joins) == Weight(first, joins) + Total(m - multiset{first}, joins);
  }

  lemma {:induction false} TotalWithout(m: multiset<Packet>, joins: map<Addr, Join>, pk: Packet)
    requires pk in m
    ensures Total(m, joins) == Weight(pk, joins) + Total(m - multiset{pk}, joins)
    decreases |m|
  {
    hide Weight, Total;
    var first := TotalFirst(m, joins);
    if first != pk {
      var rest, others := m - multiset{first}, m - multiset{pk};
      assert rest - multiset{pk} == others - multiset{first};
      TotalWithout(rest, joins, pk);
      TotalWithout(others, joins, first);
    }
  }

  lemma {:induction false} TotalUnion(a: multiset<Packet>, b: multiset<Packet>, joins: map<Addr, Join>)
    ensures Total(a + b, joins) == Total(a, joins) + Total(b, joins)
    decreases |b|
  {
    if b == multiset{} {
      assert a + b == a;
    } else {
      var pk :| pk in b;
      TotalWithout(a + b, joins, pk);
      TotalWithout(b, joins, pk);
      TotalUnion(a, b - multiset{pk}, joins);
      assert a + b - multiset{pk} == a + (b - multiset{pk});
    }
  }

  lemma {:induction false} TotalAtMost(m: multiset<Packet>, joins: map<Addr, Join>, w: nat)
    requires forall pk :: pk in m ==> Weight(pk, joins) <= w
    ensures Total(m, joins) <= w * |m|
    decreases |m|
  {
    if m != multiset{} {
      hide Total, Weight;
      var pk :| pk in m;
      var rest := m - multiset{pk};
      TotalWithout(m, joins, pk);
      TotalAtMost(rest, joins, w);
      assert |rest| == |m| - 1;
      OneMore(w, |rest|);
    }
  }

  lemma OneMore(w: nat, n: nat)
    ensures w + w * n == w * (n + 1)
  {
  }

  lemma {:induction false} TotalSame(m: multiset<Packet>, joins: map<Addr, Join>, more: map<Addr, Join>)
    requires forall pk :: pk in m ==> Weight(pk, joins) == Weight(pk, more)
    ensures Total(m, joins) == Total(m, more)
    decreases |m|
  {
    if m != multiset{} {
      var pk :| pk in m;
      TotalWithout(m, joins, pk);
      TotalWithout(m, more, pk);
      TotalSame(m - multiset{pk}, joins, more);
    }
  }

  /** The deliveries still possible: those of the packets in flight and of what the other nodes may yet send. */
  ghost function Rank(s: Net): int { Total(s.flight, s.joins) + Room(|s.nodes|, |s.joins|) }

  /** With k of n nodes in the tree, what the others may still cause. */
  function Room(n: nat, k: nat): int { 2 * n * (n - 1 - k) }

  lemma RoomFacts(n: nat, k: nat)
    ensures k <= n - 1 ==> Room(n, k) >= 0
    ensures Room(n, k + 1) == Room(n, k) - 2 * n
    ensures n >= 1 ==> Room(n, 0) + (n - 1) == (2 * n + 1) * (n - 1)
  {
    var r := n - 1 - k;
    assert 2 * n * (r - 1) == 2 * n * r - 2 * n;
    assert r >= 0 ==> n * r >= 0;
    assert (2 * n + 1) * (n - 1) == 2 * n * (n - 1) + (n - 1);
  }

  lemma {:induction false} SetSize(from: Addr, msg: Message, reach: set<Addr>, source: Addr)
    ensures |(set r | r in reach :: Packet(from, r, msg, source))| == |reach|
  {
    var sent := set r | r in reach :: Packet(from, r, msg, source);
    if reach == {} {
      assert sent == {};
    } else {
      var r :| r in reach;
      SetSize(from, msg, reach - {r}, source);
      assert sent == (set x | x in reach - {r} :: Packet(from, x, msg, source)) + {Packet(from, r, msg, source)};
    }
  }

  /** A broadcast weighs as much as it has listeners. */
  lemma BroadcastWeight(from: Addr, q: Rreq, reach: set<Addr>, source: Addr, joins: map<Addr, Join>)
    ensures Total(Post(from, [Broadcast(RREQ(q))], reach, source), joins) <= |reach|
  {
    var sends := [Broadcast(RREQ(q))];
    var sent := set r | r in reach :: Packet(from, r, RREQ(q), source);
    assert sends[1..] == [];
    assert Post(from, sends, reach, source) == multiset(sent);
    SetSize(from, RREQ(q), reach, source);
    TotalAtMost(multiset(sent), joins, 1);
  }

  lemma UnicastWeight(out: Packet, joins: map<Addr, Join>)
    ensures Total(multiset{out}, joins) == Weight(out, joins)
  {
    TotalWithout(multiset{out}, joins, out);
    assert multiset{out} - multiset{out} == multiset{};
  }

  /** What one accepting node sends: a broadcast, or a RREP from its level. */
  lemma AnswerWeight(n: NodeState, q: Rreq, src: Addr, y: Addr, reach: set<Addr>, joins: map<Addr, Join>, w: nat)
    requires (q.origin, q.id) !in n.seen && q.hop < TWO_8 - 1
    requires q.origin in n.table ==> n.table[q.origin].flag == VALID
    requires y in joins && joins[y].hop <= w && |reach| <= w
    ensures Total(Post(y, RecvRequest(n, q, src).sends, reach, y), joins) <= 2 * w
  {
    hide RecvRequest, Total, Post;
    RequestEffect(n, q, src);
    var sends := RecvRequest(n, q, src).sends;
    if sends == [] {
      NothingPosted(y, reach, joins);
    } else if sends[0].Broadcast? {
      BroadcastWeight(y, sends[0].msg.rreq, reach, y, joins);
    } else {
      PostedOne(y, src, sends[0].msg, reach, y);
      UnicastWeight(Packet(y, src, sends[0].msg, y), joins);
    }
  }

  lemma NothingPosted(y: Addr, reach: set<Addr>, joins: map<Addr, Join>)
    ensures Total(Post(y, [], reach, y), joins) == 0
  {
  }

  lemma AcceptWeight(s: Net, d: Discovery, pk: Packet, reach: set<Addr>, j: Join)
    requires Inv(s, d) && Enabled(s, Deliver(pk, reach)) && pk.msg.RREQ? && (d.orig, d.id) !in s.nodes[pk.to].seen
    requires j.hop <= |s.nodes| - 1
    ensures Total(Post(pk.to, RecvAodv(s.nodes[pk.to], pk.msg, pk.from).sends, reach, pk.to), s.joins[pk.to := j])
         <= 2 * (|s.nodes| - 1)
  {
    hide RecvRequest, Total, Post;
    assert PacketOk(s.nodes.Keys, s.joins, d, pk);
    assert d.orig !in s.nodes[pk.to].table && pk.to !in s.joins && pk.to != d.orig by {
      assert ReverseAt(s.nodes[pk.to], pk.to, s.joins, d.orig);
    }
    JoinsBound(s, d, pk.to);
    assert pk.from in s.joins ==> Below(s.joins, d.orig, s.joins[pk.from]);
    hide Inv;
    SubsetSize(reach, s.nodes.Keys - {pk.to});
    assert |s.nodes.Keys - {pk.to}| == |s.nodes| - 1;
    AnswerWeight(UpdateRouteToNeighbor(s.nodes[pk.to], pk.from), pk.msg.rreq, pk.from, pk.to, reach,
                 s.joins[pk.to := j], |s.nodes| - 1);
  }

  /** Weights in flight do not change when a node that has sent nothing yet joins. */
  lemma JoinKeepsWeight(s: Net, d: Discovery, flight: multiset<Packet>, y: Addr, j: Join)
    requires Inv(s, d) && flight <= s.flight && y !in s.joins
    ensures Total(flight, s.joins[y := j]) == Total(flight, s.joins)
  {
    forall pk | pk in flight ensures Weight(pk, s.joins) == Weight(pk, s.joins[y := j]) {
      assert pk in s.flight;
      assert PacketOk(s.nodes.Keys, s.joins, d, pk);
    }
    TotalSame(flight, s.joins, s.joins[y := j]);
  }

  lemma JoinDepth(s: Net, d: Discovery, y: Addr)
    requires Inv(s, d) && y in s.joins
    ensures 1 <= s.joins[y].hop <= |s.nodes| - 1 && |s.joins| <= |s.nodes| - 1
  {
    assert Below(s.joins, d.orig, s.joins[y]);
    SubsetSize(s.joins.Keys, s.nodes.Keys - {d.orig});
    assert |s.nodes.Keys - {d.orig}| == |s.nodes.Keys| - 1;
  }

  lemma AcceptLowersRank(s: Net, d: Discovery, pk: Packet, reach: set<Addr>)
    requires Inv(s, d) && Enabled(s, Deliver(pk, reach)) && pk.msg.RREQ? && (d.orig, d.id) !in s.nodes[pk.to].seen
    ensures Rank(Receive(s, d, pk, reach)) < Rank(s)
  {
    hide RecvAodv, Post, Total, Receive, Weight, Inv, Answers, Room;
    var s', n, k := Receive(s, d, pk, reach), |s.nodes|, |s.joins|;
    var j := AcceptedParts(s, d, pk, reach);
    DeliverKeeps(s, d, pk, reach);
    JoinDepth(s', d, pk.to);
    assert s'.nodes.Keys == s.nodes.Keys && |s'.nodes| == n && |s'.joins| == k + 1;
    var rest := s.flight - multiset{pk};
    var sent := Post(pk.to, RecvAodv(s.nodes[pk.to], pk.msg, pk.from).sends, reach, pk.to);
    TotalWithout(s.flight, s.joins, pk);
    TotalUnion(rest, sent, s'.joins);
    JoinKeepsWeight(s, d, rest, pk.to, j);
    AcceptWeight(s, d, pk, reach, j);
    RoomFacts(n, k);
  }

  /** A RREP that moves on weighs two less than before; an ACK weighs one. */
  lemma ReplyWeight(s: Net, d: Discovery, pk: Packet, reach: set<Addr>)
    requires Inv(s, d) && Enabled(s, Deliver(pk, reach)) && pk.msg.RREP?
    ensures Total(Post(pk.to, RecvAodv(s.nodes[pk.to], pk.msg, pk.from).sends, reach, pk.source), s.joins)
         < Weight(pk, s.joins)
  {
    var n, p := s.nodes[pk.to], pk.msg.rrep;
    assert PacketOk(s.nodes.Keys, s.joins, d, pk) && Below(s.joins, d.orig, s.joins[pk.from]);
    hide RecvAodv;
    if pk.to == d.orig {
      ArrivedReply(n, p, pk.from);
      AckWeight(pk.to, p, pk.from, [], reach, pk.source, s.joins);
      assert Ack(p, pk.from) + [] == Ack(p, pk.from);
    } else {
      assert ReverseAt(n, pk.to, s.joins, d.orig);
      RelayedReply(n, p, pk.from);
      var to, next := n.table[d.orig].nextHop, RREP(Next(p));
      AckWeight(pk.to, p, pk.from, [Unicast(to, next)], reach, pk.source, s.joins);
      PostedOne(pk.to, to, next, reach, pk.source);
      UnicastWeight(Packet(pk.to, to, next, pk.source), s.joins);
    }
  }

  lemma AckWeight(from: Addr, p: Rrep, sender: Addr, more: seq<Send>, reach: set<Addr>, source: Addr,
                  joins: map<Addr, Join>)
    ensures Total(Post(from, Ack(p, sender) + more, reach, source), joins)
         <= 1 + Total(Post(from, more, reach, source), joins)
  {
    hide Total;
    var sends := Ack(p, sender) + more;
    if p.ackRequired {
      var ack := Packet(from, sender, RREP_ACK, source);
      assert sends[0] == Unicast(sender, RREP_ACK) && sends[1..] == more;
      assert Post(from, sends, reach, source) == multiset{ack} + Post(from, more, reach, source);
      TotalUnion(multiset{ack}, Post(from, more, reach, source), joins);
      UnicastWeight(ack, joins);
    } else {
      assert sends == more;
    }
  }

  lemma OtherLowersRank(s: Net, d: Discovery, pk: Packet, reach: set<Addr>)
    requires Inv(s, d) && Enabled(s, Deliver(pk, reach))
    requires pk.msg.RREQ? ==> (d.orig, d.id) in s.nodes[pk.to].seen
    ensures Rank(Receive(s, d, pk, reach)) < Rank(s)
  {
    var s', rest := Receive(s, d, pk, reach), s.flight - multiset{pk};
    OtherParts(s, d, pk, reach);
    hide RecvAodv, Total, Weight, Inv, Receive, Room, Post;
    var sent := Post(pk.to, RecvAodv(s.nodes[pk.to], pk.msg, pk.from).sends, reach, Source(pk));
    TotalWithout(s.flight, s.joins, pk);
    TotalUnion(rest, sent, s.joins);
    if pk.msg.RREP? {
      ReplyWeight(s, d, pk, reach);
    } else {
      NothingWeighs(s.joins, pk);
    }
    assert |s'.nodes| == |s.nodes|;
  }

  lemma NothingWeighs(joins: map<Addr, Join>, pk: Packet)
    ensures Total(multiset{}, joins) == 0 && (!pk.msg.RREP? ==> Weight(pk, joins) == 1)
  {
  }

  lemma LossLowersRank(s: Net, d: Discovery, pk: Packet)
    requires Inv(s, d) && Enabled(s, Lose(pk))
    ensures Rank(Apply(s, d, Lose(pk))) < Rank(s)
  {
    Weighs(s, d, pk);
    hide Total, Room, Weight, Inv;
    TotalWithout(s.flight, s.joins, pk);
  }

  lemma Weighs(s: Net, d: Discovery, pk: Packet)
    requires Inv(s, d) && pk in s.flight
    ensures Weight(pk, s.joins) >= 1
  {
    assert PacketOk(s.nodes.Keys, s.joins, d, pk);
    assert pk.msg.RREP? ==> Below(s.joins, d.orig, s.joins[pk.from]);
  }

  lemma StepLowersRank(s: Net, d: Discovery, step: Step)
    requires Inv(s, d) && Enabled(s, step)
    ensures Rank(Apply(s, d, step)) < Rank(s)
  {
    hide Receive, Rank, RecvAodv;
    match step
    case Lose(pk) => LossLowersRank(s, d, pk);
    case Deliver(pk, reach) =>
      if pk.msg.RREQ? && (d.orig, d.id) !in s.nodes[pk.to].seen {
        AcceptLowersRank(s, d, pk, reach);
      } else {
        OtherLowersRank(s, d, pk, reach);
      }
  }

  lemma RankBounds(s: Net, d: Discovery)
    requires Inv(s, d)
    ensures Rank(s) >= 0
  {
    hide Total, Room;
    SubsetSize(s.joins.Keys, s.nodes.Keys - {d.orig});
    assert |s.nodes.Keys - {d.orig}| == |s.nodes.Keys| - 1;
    RoomFacts(|s.nodes|, |s.joins|);
  }

  lemma LaunchRank(nodes: map<Addr, NodeState>, d: Discovery, destinationOnly: bool, reach: set<Addr>)
    requires Quiet(nodes, d) && reach <= nodes.Keys - {d.orig}
    ensures Rank(Launch(nodes, d, destinationOnly, reach)) <= (2 * |nodes| + 1) * (|nodes| - 1)
  {
    assert d.orig in nodes;
    hide Total, Room, Post, Launch, Quiet;
    var s := Launch(nodes, d, destinationOnly, reach);
    LaunchWeight(nodes, d, destinationOnly, reach);
    SubsetSize(reach, nodes.Keys - {d.orig});
    assert |nodes.Keys - {d.orig}| == |nodes| - 1;
    RoomFacts(|nodes|, 0);
  }

  lemma LaunchWeight(nodes: map<Addr, NodeState>, d: Discovery, destinationOnly: bool, reach: set<Addr>)
    requires d.orig in nodes
    ensures var s := Launch(nodes, d, destinationOnly, reach);
      |s.nodes| == |nodes| && |s.joins| == 0 && Total(s.flight, s.joins) <= |reach|
  {
    hide Total, Post;
    var s := Launch(nodes, d, destinationOnly, reach);
    var q := SendRequest(nodes[d.orig], d.dst, destinationOnly).sends[0].msg.rreq;
    assert s.nodes.Keys == nodes.Keys;
    BroadcastWeight(d.orig, q, reach, d.orig, s.joins);
  }

  /** Every run comes to an end: with n nodes no more than (2n + 1)(n - 1) packets are ever delivered or lost. */
  lemma {:induction false} BoundedRun(nodes: map<Addr, NodeState>, d: Discovery, destinationOnly: bool,
                                      reach: set<Addr>, steps: seq<Step>)
    requires Quiet(nodes, d) && reach <= nodes.Keys - {d.orig}
    requires Legal(Launch(nodes, d, destinationOnly, reach), d, steps)
    ensures |steps| + Rank(Execute(Launch(nodes, d, destinationOnly, reach), d, steps))
         <= (2 * |nodes| + 1) * (|nodes| - 1)
    ensures |steps| <= (2 * |nodes| + 1) * (|nodes| - 1)
  {
    hide Rank, Apply, Launch;
    var start := Launch(nodes, d, destinationOnly, reach);
    RunKeeps(nodes, d, destinationOnly, reach, steps);
    RankBounds(Execute(start, d, steps), d);
    if steps == [] {
      LaunchRank(nodes, d, destinationOnly, reach);
    } else {
      var n := |steps| - 1;
      BoundedRun(nodes, d, destinationOnly, reach, steps[..n]);
      RunKeeps(nodes, d, destinationOnly, reach, steps[..n]);
      StepLowersRank(Execute(start, d, steps[..n]), d, steps[n]);
    }
  }

  // ----- who accepts, when neighbours stay and nothing is lost -----

  type Neighbours = map<Addr, set<Addr>>

  /** Every broadcast is heard by the same neighbours each time, and every packet is delivered. */
  ghost predicate Reliable(nb: Neighbours, steps: seq<Step>) {
    forall i :: 0 <= i < |steps| ==>
      steps[i].Deliver? && steps[i].pk.to in nb && steps[i].reach == nb[steps[i].pk.to]
  }

  /** A path of k hops from the originator to x that does not pass through the destination. */
  ghost predicate Hops(nb: Neighbours, d: Discovery, x: Addr, k: nat)
    decreases k
  {
    if k == 0 then x == d.orig
    else exists y :: y in nb && y != d.dst && Hops(nb, d, y, k - 1) && x in nb[y]
  }

  ghost predicate Reachable(nb: Neighbours, d: Discovery, x: Addr) {
    exists k: nat :: Hops(nb, d, x, k)
  }

  /** No node but the originator has an entry for the destination. */
  ghost predicate Unknown(nodes: map<Addr, NodeState>, d: Discovery) {
    forall x :: x in nodes && x != d.orig ==> d.dst !in nodes[x].table
  }

  ghost predicate Speaks(joins: map<Addr, Join>, d: Discovery, y: Addr) {
    y == d.orig || (y in joins && y != d.dst)
  }

  ghost predicate Told(flight: multiset<Packet>, joins: map<Addr, Join>, d: Discovery, y: Addr, z: Addr) {
    z == d.orig || z in joins || exists pk :: pk in flight && pk.msg.RREQ? && pk.from == y && pk.to == z
  }

  ghost predicate AllTold(nb: Neighbours, flight: multiset<Packet>, joins: map<Addr, Join>, d: Discovery) {
    forall y, z :: y in nb && z in nb[y] && Speaks(joins, d, y) ==> Told(flight, joins, d, y, z)
  }

  ghost predicate Ignorant(nodes: map<Addr, NodeState>, joins: map<Addr, Join>, d: Discovery) {
    forall x :: x in nodes && x != d.orig && x !in joins ==> d.dst !in nodes[x].table
  }

  ghost predicate Nearby(nb: Neighbours, flight: multiset<Packet>) {
    forall pk :: pk in flight && pk.msg.RREQ? ==> pk.from in nb && pk.to in nb[pk.from]
  }

  ghost predicate Reached(nb: Neighbours, d: Discovery, joins: map<Addr, Join>) {
    forall x :: x in joins ==> Hops(nb, d, x, joins[x].hop)
  }

  ghost predicate CoverInv(s: Net, d: Discovery, nb: Neighbours) {
    && ReplyInv(s, d) && nb.Keys == s.nodes.Keys && Ignorant(s.nodes, s.joins, d) && Nearby(nb, s.flight)
    && AllTold(nb, s.flight, s.joins, d) && Reached(nb, d, s.joins)
  }

  /** Without an entry for the destination a relay broadcasts what it has accepted. */
  lemma RelayBroadcasts(n: NodeState, q: Rreq, src: Addr) returns (q': Rreq)
    requires (q.origin, q.id) !in n.seen && q.dst != n.addr && q.dst != q.origin && src != q.dst && q.dst !in n.table
    ensures var r := RecvAodv(n, RREQ(q), src);
      r.sends == [Broadcast(RREQ(q'))] && q.dst !in r.node.table
  {
    q' := q.(hop := Inc8(q.hop));
  }

  lemma PostedAll(from: Addr, msg: Message, reach: set<Addr>, source: Addr, pk: Packet)
    ensures pk in Post(from, [Broadcast(msg)], reach, source) <==>
      pk.to in reach && pk == Packet(from, pk.to, msg, source)
  {
    assert [Broadcast(msg)][1..] == [];
  }

  /** Who was told stays told: a delivered request has made its receiver accept. */
  lemma ToldStays(s: Net, d: Discovery, pk: Packet, s': Net, sent: multiset<Packet>, y: Addr, z: Addr)
    requires Told(s.flight, s.joins, d, y, z) && s'.flight == s.flight - multiset{pk} + sent
    requires s.joins.Keys <= s'.joins.Keys && (pk.msg.RREQ? ==> pk.to == d.orig || pk.to in s'.joins)
    ensures Told(s'.flight, s'.joins, d, y, z)
  {
    if z != d.orig && z !in s.joins {
      var p :| p in s.flight && p.msg.RREQ? && p.from == y && p.to == z;
      if p != pk {
        assert p in s'.flight;
      }
    }
  }

  lemma HopsNext(nb: Neighbours, d: Discovery, y: Addr, x: Addr, k: nat)
    requires y in nb && y != d.dst && Hops(nb, d, y, k) && x in nb[y]
    ensures Hops(nb, d, x, k + 1)
  {
  }

  /** What the accepting node sends, and what it still does not know. */
  lemma CoverSends(s: Net, d: Discovery, nb: Neighbours, pk: Packet)
    requires CoverInv(s, d, nb) && pk.to in nb && Enabled(s, Deliver(pk, nb[pk.to])) && pk.msg.RREQ?
    requires (d.orig, d.id) !in s.nodes[pk.to].seen
    ensures var r := RecvAodv(s.nodes[pk.to], pk.msg, pk.from);
      var sent := Post(pk.to, r.sends, nb[pk.to], pk.to);
      && (forall o :: o in sent && o.msg.RREQ? ==> o.from == pk.to && o.to in nb[pk.to])
      && (pk.to != d.dst ==>
            forall z :: z in nb[pk.to] ==> exists o :: o in sent && o.msg.RREQ? && o.from == pk.to && o.to == z)
  {
    var y, n, q := pk.to, s.nodes[pk.to], pk.msg.rreq;
    assert PacketOk(s.nodes.Keys, s.joins, d, pk);
    if y == d.dst {
      DestinationAnswers(UpdateRouteToNeighbor(n, pk.from), q, pk.from);
      PostedOne(y, pk.from, RecvAodv(n, pk.msg, pk.from).sends[0].msg, nb[y], y);
    } else {
      var q' := RelayBroadcasts(n, q, pk.from);
      hide RecvAodv, Post;
      var sent := Post(y, RecvAodv(n, pk.msg, pk.from).sends, nb[y], y);
      forall o | o in sent ensures o.from == y && o.to in nb[y] {
        PostedAll(y, RREQ(q'), nb[y], y, o);
      }
      forall z | z in nb[y] ensures exists o :: o in sent && o.msg.RREQ? && o.from == y && o.to == z {
        PostedAll(y, RREQ(q'), nb[y], y, Packet(y, z, RREQ(q'), y));
        assert Packet(y, z, RREQ(q'), y) in sent;
      }
    }
  }

  lemma ToldAfter(s: Net, d: Discovery, nb: Neighbours, pk: Packet, s': Net, sent: multiset<Packet>)
    requires AllTold(nb, s.flight, s.joins, d) && s'.flight == s.flight - multiset{pk} + sent && pk.to in nb
    requires s'.joins.Keys == s.joins.Keys + {pk.to}
    requires pk.to != d.dst ==>
      forall z :: z in nb[pk.to] ==> exists o :: o in sent && o.msg.RREQ? && o.from == pk.to && o.to == z
    ensures AllTold(nb, s'.flight, s'.joins, d)
  {
    forall a, z | a in nb && z in nb[a] && Speaks(s'.joins, d, a) ensures Told(s'.flight, s'.joins, d, a, z) {
      if a == pk.to && a != d.orig {
        var o :| o in sent && o.msg.RREQ? && o.from == a && o.to == z;
        assert o in s'.flight;
      } else {
        assert Speaks(s.joins, d, a);
        ToldStays(s, d, pk, s', sent, a, z);
      }
    }
  }

  lemma CoverAccept(s: Net, d: Discovery, nb: Neighbours, pk: Packet)
    requires CoverInv(s, d, nb) && pk.to in nb && Enabled(s, Deliver(pk, nb[pk.to])) && pk.msg.RREQ?
    requires (d.orig, d.id) !in s.nodes[pk.to].seen
    ensures CoverInv(Receive(s, d, pk, nb[pk.to]), d, nb)
  {
    hide RecvAodv, Post, Receive, Inv, ReplyInv, Answers, AllTold, Hops;
    var y, s' := pk.to, Receive(s, d, pk, nb[pk.to]);
    CoverSends(s, d, nb, pk);
    RequestAccepted(s, d, pk, nb[y]);
    InvHolds(s, d);
    var j := AcceptedParts(s, d, pk, nb[y]);
    JoinedHop(s, d, pk, nb[y], j);
    var sent := Post(y, RecvAodv(s.nodes[y], pk.msg, pk.from).sends, nb[y], y);
    ToldAfter(s, d, nb, pk, s', sent);
    assert pk.from in nb && Hops(nb, d, pk.from, j.hop - 1) by { assert pk in s.flight; StartHops(nb, d); }
    HopsNext(nb, d, pk.from, y, j.hop - 1);
    assert s'.nodes.Keys == s.nodes.Keys;
  }

  lemma StartHops(nb: Neighbours, d: Discovery)
    ensures Hops(nb, d, d.orig, 0)
  {
  }

  lemma InvHolds(s: Net, d: Discovery)
    requires ReplyInv(s, d)
    ensures Inv(s, d)
  {
  }

  /** The hop count of an acceptance is one more than the sender's. */
  lemma JoinedHop(s: Net, d: Discovery, pk: Packet, reach: set<Addr>, j: Join)
    requires ReplyInv(s, d) && Enabled(s, Deliver(pk, reach)) && pk.msg.RREQ?
    requires (d.orig, d.id) !in s.nodes[pk.to].seen && Receive(s, d, pk, reach).joins == s.joins[pk.to := j]
    ensures pk.from != d.dst && (pk.from == d.orig || pk.from in s.joins)
    ensures j.hop == 1 + if pk.from == d.orig then 0 else s.joins[pk.from].hop
  {
    assert PacketOk(s.nodes.Keys, s.joins, d, pk);
    var k := AcceptNode(s, d, pk);
    assert s.joins[pk.to := j][pk.to] == j;
    hide RecvAodv;
    assert Receive(s, d, pk, reach).joins[pk.to] == k;
  }

  /** RREPs, ACKs and repeated requests go to nodes that have accepted, or to the originator. */
  lemma CoverOther(s: Net, d: Discovery, nb: Neighbours, pk: Packet)
    requires CoverInv(s, d, nb) && pk.to in nb && Enabled(s, Deliver(pk, nb[pk.to]))
    requires pk.msg.RREQ? ==> (d.orig, d.id) in s.nodes[pk.to].seen
    ensures CoverInv(Receive(s, d, pk, nb[pk.to]), d, nb)
  {
    hide RecvAodv, Post, Receive, Inv, ReplyInv, AllTold, Hops, Reached;
    var y, s' := pk.to, Receive(s, d, pk, nb[pk.to]);
    InvHolds(s, d);
    ReplyStepKeeps(s, d, Deliver(pk, nb[y]));
    OtherParts(s, d, pk, nb[y]);
    ReceiverKnows(s, d, pk);
    var sent := Post(y, RecvAodv(s.nodes[y], pk.msg, pk.from).sends, nb[y], Source(pk));
    assert forall o :: o in sent ==> !o.msg.RREQ? by {
      if pk.msg.RREP? {
        NoRequests(s, d, pk, nb[y]);
      }
    }
    ToldOther(s, d, nb, pk, s', sent);
  }

  lemma ToldOther(s: Net, d: Discovery, nb: Neighbours, pk: Packet, s': Net, sent: multiset<Packet>)
    requires AllTold(nb, s.flight, s.joins, d) && s'.flight == s.flight - multiset{pk} + sent
    requires s'.joins == s.joins && (pk.to == d.orig || pk.to in s.joins)
    ensures AllTold(nb, s'.flight, s'.joins, d)
  {
    forall a, z | a in nb && z in nb[a] && Speaks(s'.joins, d, a) ensures Told(s'.flight, s'.joins, d, a, z) {
      ToldStays(s, d, pk, s', sent, a, z);
    }
  }

  lemma ReceiverKnows(s: Net, d: Discovery, pk: Packet)
    requires ReplyInv(s, d) && pk in s.flight && pk.to in s.nodes
    requires pk.msg.RREQ? ==> (d.orig, d.id) in s.nodes[pk.to].seen
    ensures pk.to == d.orig || pk.to in s.joins
  {
    assert PacketOk(s.nodes.Keys, s.joins, d, pk);
    assert pk.msg.RREP? ==> Below(s.joins, d.orig, s.joins[pk.from]);
  }

  lemma CoverStart(nodes: map<Addr, NodeState>, d: Discovery, destinationOnly: bool, nb: Neighbours)
    requires Quiet(nodes, d) && Unknown(nodes, d) && nb.Keys == nodes.Keys && nb[d.orig] <= nodes.Keys - {d.orig}
    ensures CoverInv(Launch(nodes, d, destinationOnly, nb[d.orig]), d, nb)
  {
    ReplyLaunch(nodes, d, destinationOnly, nb[d.orig]);
    var s := Launch(nodes, d, destinationOnly, nb[d.orig]);
    NobodyKnows(nodes, d, destinationOnly, nb[d.orig]);
    LaunchFlight(nodes, d, destinationOnly, nb[d.orig]);
    assert Reached(nb, d, s.joins);
    hide ReplyInv, Post, Launch, Told, Hops, Unknown, Quiet, Ignorant, Reached;
    forall y, z | y in nb && z in nb[y] && Speaks(s.joins, d, y) ensures Told(s.flight, s.joins, d, y, z) {
      assert y == d.orig;
    }
  }

  lemma NobodyKnows(nodes: map<Addr, NodeState>, d: Discovery, destinationOnly: bool, reach: set<Addr>)
    requires d.orig in nodes && Unknown(nodes, d)
    ensures var s := Launch(nodes, d, destinationOnly, reach);
      Ignorant(s.nodes, s.joins, d) && s.joins == map[] && s.nodes.Keys == nodes.Keys
  {
    hide Post;
  }

  lemma LaunchFlight(nodes: map<Addr, NodeState>, d: Discovery, destinationOnly: bool, reach: set<Addr>)
    requires d.orig in nodes
    ensures var s := Launch(nodes, d, destinationOnly, reach);
      && (forall pk :: pk in s.flight ==> pk.from == d.orig && pk.to in reach)
      && forall z :: z in reach ==> Told(s.flight, s.joins, d, d.orig, z)
  {
    var q := SendRequest(nodes[d.orig], d.dst, destinationOnly).sends[0].msg.rreq;
    var s := Launch(nodes, d, destinationOnly, reach);
    hide Post;
    assert s.flight == Post(d.orig, [Broadcast(RREQ(q))], reach, d.orig);
    forall pk | pk in s.flight ensures pk.from == d.orig && pk.to in reach {
      PostedAll(d.orig, RREQ(q), reach, d.orig, pk);
    }
    forall z | z in reach ensures Told(s.flight, s.joins, d, d.orig, z) {
      PostedAll(d.orig, RREQ(q), reach, d.orig, Packet(d.orig, z, RREQ(q), d.orig));
      assert Packet(d.orig, z, RREQ(q), d.orig) in s.flight;
    }
  }

  lemma {:induction false} CoverRun(nodes: map<Addr, NodeState>, d: Discovery, destinationOnly: bool,
                                    nb: Neighbours, steps: seq<Step>)
    requires Quiet(nodes, d) && Unknown(nodes, d) && nb.Keys == nodes.Keys && nb[d.orig] <= nodes.Keys - {d.orig}
    requires Legal(Launch(nodes, d, destinationOnly, nb[d.orig]), d, steps) && Reliable(nb, steps)
    ensures CoverInv(Execute(Launch(nodes, d, destinationOnly, nb[d.orig]), d, steps), d, nb)
  {
    hide CoverInv, Receive, Launch;
    if steps == [] {
      CoverStart(nodes, d, destinationOnly, nb);
    } else {
      var n := |steps| - 1;
      CoverRun(nodes, d, destinationOnly, nb, steps[..n]);
      CoverStep(Execute(Launch(nodes, d, destinationOnly, nb[d.orig]), d, steps[..n]), d, nb, steps[n].pk);
    }
  }

  lemma CoverStep(s: Net, d: Discovery, nb: Neighbours, pk: Packet)
    requires CoverInv(s, d, nb) && pk.to in nb && Enabled(s, Deliver(pk, nb[pk.to]))
    ensures CoverInv(Receive(s, d, pk, nb[pk.to]), d, nb)
  {
    hide CoverInv, Receive;
    if pk.msg.RREQ? && (d.orig, d.id) !in s.nodes[pk.to].seen {
      CoverAccept(s, d, nb, pk);
    } else {
      CoverOther(s, d, nb, pk);
    }
  }

  ghost predicate Silent(flight: multiset<Packet>) {
    forall pk :: pk in flight ==> !pk.msg.RREQ?
  }

  /** When no request is in flight any more, whoever can be reached has accepted. */
  lemma {:induction false} ReachableJoined(s: Net, d: Discovery, nb: Neighbours, x: Addr, k: nat)
    requires CoverInv(s, d, nb) && Silent(s.flight) && Hops(nb, d, x, k)
    ensures x == d.orig || x in s.joins
    decreases k
  {
    if k > 0 {
      var y :| y in nb && y != d.dst && Hops(nb, d, y, k - 1) && x in nb[y];
      ReachableJoined(s, d, nb, y, k - 1);
      assert Told(s.flight, s.joins, d, y, x);
    }
  }

  /**
   * With fixed neighbours, no loss and no entry for the destination anywhere: at any time only nodes that can be
   * reached from the originator without passing through the destination have accepted, with the length of such a
   * path as hop count; and once no request is in flight any more, all of them have.
   */
  lemma CoverageTheorem(nodes: map<Addr, NodeState>, d: Discovery, destinationOnly: bool, nb: Neighbours,
                        steps: seq<Step>)
    requires Quiet(nodes, d) && Unknown(nodes, d) && nb.Keys == nodes.Keys && nb[d.orig] <= nodes.Keys - {d.orig}
    requires Legal(Launch(nodes, d, destinationOnly, nb[d.orig]), d, steps) && Reliable(nb, steps)
    ensures var s := Execute(Launch(nodes, d, destinationOnly, nb[d.orig]), d, steps);
      && (forall x :: x in s.accepted ==> x in s.joins && Hops(nb, d, x, s.joins[x].hop))
      && (Silent(s.flight) ==>
            forall x :: x in s.accepted <==> x != d.orig && Reachable(nb, d, x))
  {
    CoverRun(nodes, d, destinationOnly, nb, steps);
    AcceptedReachable(Execute(Launch(nodes, d, destinationOnly, nb[d.orig]), d, steps), d, nb);
  }

  lemma AcceptedReachable(s: Net, d: Discovery, nb: Neighbours)
    requires CoverInv(s, d, nb)
    ensures forall x :: x in s.accepted ==> x in s.joins && x != d.orig && Hops(nb, d, x, s.joins[x].hop)
    ensures Silent(s.flight) ==> forall x :: x in s.accepted <==> x != d.orig && Reachable(nb, d, x)
  {
    assert (forall x :: x in s.accepted <==> x in s.joins) && d.orig !in s.joins by { InvHolds(s, d); }
    hide Hops, ReplyInv, AllTold, Silent;
    if Silent(s.flight) {
      forall x | Reachable(nb, d, x) && x != d.orig ensures x in s.joins {
        var k: nat :| Hops(nb, d, x, k);
        ReachableJoined(s, d, nb, x, k);
      }
    }
  }
}
