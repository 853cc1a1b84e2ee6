/**
 * One route discovery in a whole network: a node floods a RREQ, every node runs the handlers of
 * AodvNode, and the network delivers or loses packets in any order to any set of listeners.
 */
module AodvFlood {
  import opened Sequences
  import opened Words
  import opened Options
  import opened AodvNode

  /** Who looks for whom, under which RREQ ID. */
  datatype Discovery = Discovery(orig: Addr, dst: Addr, id: u32)

  /** source is a history: for a RREP, the node that answered with it first. */
  datatype Packet = Packet(from: Addr, to: Addr, msg: Message, source: Addr)

  /** The sender and the hop count with which a node accepted the RREQ. */
  datatype Join = Join(parent: Addr, hop: nat)

  /**
   * The network. accepted, relayed, trails and lost are histories: who accepted the RREQ, who broadcast it
   * again, for every node that answered the nodes its RREP has come through, itself first, and the nodes
   * whose RREP the network has lost.
   */
  datatype Net = Net(nodes: map<Addr, NodeState>, flight: multiset<Packet>,
                     accepted: seq<Addr>, joins: map<Addr, Join>, relayed: seq<Addr>,
                     trails: map<Addr, seq<Addr>>, lost: set<Addr>)

  datatype Step = Deliver(pk: Packet, reach: set<Addr>) | Lose(pk: Packet)

  // ----- the transition system -----

  ghost function PostOne(from: Addr, send: Send, reach: set<Addr>, source: Addr): multiset<Packet> {
    match send
    case Broadcast(msg) => multiset(set r | r in reach :: Packet(from, r, msg, source))
    case Unicast(to, msg) => multiset{Packet(from, to, msg, source)}
  }

  ghost function Post(from: Addr, sends: seq<Send>, reach: set<Addr>, source: Addr): multiset<Packet> {
    if sends == [] then multiset{}
    else PostOne(from, sends[0], reach, source) + Post(from, sends[1..], reach, source)
  }

  predicate Relays(sends: seq<Send>) {
    exists i :: 0 <= i < |sends| && sends[i].Broadcast? && sends[i].msg.RREQ?
  }

  predicate Answers(sends: seq<Send>) {
    exists i :: 0 <= i < |sends| && sends[i].Unicast? && sends[i].msg.RREP?
  }

  /** A RREP keeps its history; anything else a node sends is its own. */
  function Source(pk: Packet): Addr { if pk.msg.RREP? then pk.source else pk.to }

  /** The trails after y has received pk and sent something. */
  function Followed(trails: map<Addr, seq<Addr>>, pk: Packet, sends: seq<Send>): map<Addr, seq<Addr>> {
    if pk.msg.RREP? then
      if pk.source in trails then trails[pk.source := trails[pk.source] + [pk.to]] else trails
    else if Answers(sends) then trails[pk.to := [pk.to]]
    else trails
  }

  ghost function Receive(s: Net, d: Discovery, pk: Packet, reach: set<Addr>): Net
    requires pk.to in s.nodes
  {
    var y, n := pk.to, s.nodes[pk.to];
    var r := RecvAodv(n, pk.msg, pk.from);
    var accepts := (d.orig, d.id) !in n.seen && (d.orig, d.id) in r.node.seen;
    Net(s.nodes[y := r.node],
        s.flight - multiset{pk} + Post(y, r.sends, reach, Source(pk)),
        if accepts then s.accepted + [y] else s.accepted,
        if accepts && pk.msg.RREQ? then s.joins[y := Join(pk.from, Inc8(pk.msg.rreq.hop))] else s.joins,
        if Relays(r.sends) then s.relayed + [y] else s.relayed,
        Followed(s.trails, pk, r.sends),
        s.lost)
  }

  ghost predicate Enabled(s: Net, step: Step) {
    && step.pk in s.flight && step.pk.to in s.nodes
    && (step.Deliver? ==> step.reach <= s.nodes.Keys - {step.pk.to})
  }

  ghost function Apply(s: Net, d: Discovery, step: Step): Net
    requires Enabled(s, step)
  {
    match step
    case Deliver(pk, reach) => Receive(s, d, pk, reach)
    case Lose(pk) =>
      s.(flight := s.flight - multiset{pk}, lost := if pk.msg.RREP? then s.lost + {pk.source} else s.lost)
  }

  /** The state right after the originator has sent its request. */
  ghost function Launch(nodes: map<Addr, NodeState>, d: Discovery, destinationOnly: bool, reach: set<Addr>): Net
    requires d.orig in nodes
  {
    var r := SendRequest(nodes[d.orig], d.dst, destinationOnly);
    Net(nodes[d.orig := r.node], Post(d.orig, r.sends, reach, d.orig), [], map[], [], map[], {})
  }

  /** A quiet network: nobody but the originator knows a route to it, or has seen its next RREQ ID. */
  ghost predicate Quiet(nodes: map<Addr, NodeState>, d: Discovery) {
    && d.orig in nodes && d.dst in nodes && d.orig != d.dst && |nodes| <= TWO_8
    && (forall x :: x in nodes ==> nodes[x].addr == x)
    && d.id == Inc32(nodes[d.orig].requestId)
    && (forall x :: x in nodes && x != d.orig ==> d.orig !in nodes[x].table && (d.orig, d.id) !in nodes[x].seen)
  }

  ghost predicate Legal(start: Net, d: Discovery, steps: seq<Step>)
    decreases |steps|, 0
  {
    steps == [] ||
    (Legal(start, d, steps[..|steps| - 1]) && Enabled(Execute(start, d, steps[..|steps| - 1]), steps[|steps| - 1]))
  }

  ghost function Execute(start: Net, d: Discovery, steps: seq<Step>): Net
    requires Legal(start, d, steps)
    decreases |steps|, 1
  {
    if steps == [] then start
    else Apply(Execute(start, d, steps[..|steps| - 1]), d, steps[|steps| - 1])
  }

  // ----- the invariant -----

  ghost predicate Members(nodes: map<Addr, NodeState>, d: Discovery) {
    && d.orig in nodes && d.dst in nodes && d.orig != d.dst && |nodes| <= TWO_8
    && forall x :: x in nodes ==> nodes[x].addr == x
  }

  /** Nobody accepts or relays twice, and the histories agree with the ID caches. */
  ghost predicate History(s: Net, d: Discovery) {
    && Distinct(s.accepted) && Distinct(s.relayed)
    && (forall x :: x in s.accepted <==> x in s.joins)
    && (forall x :: x in s.relayed ==> x in s.joins)
    && s.joins.Keys <= s.nodes.Keys - {d.orig}
    && (forall x :: x in s.nodes ==> ((d.orig, d.id) in s.nodes[x].seen <==> x == d.orig || x in s.joins))
  }

  ghost predicate Below(joins: map<Addr, Join>, orig: Addr, j: Join) {
    if j.parent == orig then j.hop == 1
    else j.parent in joins && joins[j.parent].hop >= 1 && j.hop == joins[j.parent].hop + 1
  }

  /** The nodes that accepted hang below the originator, each exactly one hop below its parent. */
  ghost predicate TreeShape(joins: map<Addr, Join>, orig: Addr) {
    forall x {:trigger Below(joins, orig, joins[x])} ::
      x in joins ==> joins[x].hop <= |joins| && Below(joins, orig, joins[x])
  }

  /** A stored route to the originator follows the tree, or goes straight to the originator. */
  ghost predicate GoodReverse(e: Route, j: Join, orig: Addr) {
    e.flag == VALID && ((e.nextHop == orig && e.hop == 1) || (e.nextHop == j.parent && e.hop == j.hop))
  }

  ghost predicate ReverseAt(n: NodeState, x: Addr, joins: map<Addr, Join>, orig: Addr) {
    if x in joins then orig in n.table && GoodReverse(n.table[orig], joins[x], orig) else orig !in n.table
  }

  ghost predicate ReverseRoutes(s: Net, orig: Addr) {
    forall x :: x in s.nodes && x != orig ==> ReverseAt(s.nodes[x], x, s.joins, orig)
  }

  ghost predicate PacketOk(members: set<Addr>, joins: map<Addr, Join>, d: Discovery, pk: Packet) {
    && pk.from in members && pk.to in members && pk.from != pk.to
    && match pk.msg {
         case RREQ(q) =>
           && q.origin == d.orig && q.dst == d.dst && q.id == d.id
           && if pk.from == d.orig then q.hop == 0 else pk.from in joins && q.hop == joins[pk.from].hop
         case RREP(p) =>
           && p.origin == d.orig && p.dst == d.dst && pk.from in joins
           && (pk.to == d.orig || pk.to == joins[pk.from].parent)
         case RREP_ACK => pk.to in joins
       }
  }

  ghost predicate Flight(flight: multiset<Packet>, members: set<Addr>, joins: map<Addr, Join>, d: Discovery) {
    forall pk :: pk in flight ==> PacketOk(members, joins, d, pk)
  }

  ghost predicate Inv(s: Net, d: Discovery) {
    && Members(s.nodes, d) && History(s, d) && TreeShape(s.joins, d.orig) && ReverseRoutes(s, d.orig)
    && Flight(s.flight, s.nodes.Keys, s.joins, d)
  }

  // ----- what one handler call does -----

  /** Hearing the originator directly can only shorten the route to it; hearing others leaves it alone. */
  lemma NeighborKeepsReverse(n: NodeState, sender: Addr, j: Join, orig: Addr)
    requires orig in n.table && GoodReverse(n.table[orig], j, orig) && (j.parent == orig || j.hop > 1)
    ensures orig in UpdateRouteToNeighbor(n, sender).table
    ensures GoodReverse(UpdateRouteToNeighbor(n, sender).table[orig], j, orig)
  {
  }

  lemma RequestEffect(n: NodeState, q: Rreq, src: Addr)
    requires (q.origin, q.id) !in n.seen && q.hop < TWO_8 - 1
    requires q.origin in n.table ==> n.table[q.origin].flag == VALID
    ensures var r := RecvRequest(n, q, src);
      && r.node.addr == n.addr && r.node.seen == n.seen + {(q.origin, q.id)}
      && r.node.table.Keys == n.table.Keys + {q.origin}
      && (forall k :: k in n.table && k != q.origin ==> r.node.table[k] == n.table[k])
      && var e := r.node.table[q.origin];
      && e.nextHop == src && e.hop == q.hop + 1 && e.flag == VALID
      && (|| r.sends == []
          || (exists q' :: r.sends == [Broadcast(RREQ(q'))] && q'.hop == q.hop + 1
                && q'.origin == q.origin && q'.dst == q.dst && q'.id == q.id)
          || (exists p :: r.sends == [Unicast(src, RREP(p))] && p.origin == q.origin && p.dst == q.dst))
      && (q.dst == n.addr ==> !Relays(r.sends))
  {
  }

  lemma ReplyEffect(n: NodeState, p: Rrep, sender: Addr)
    requires p.dst != p.origin
    ensures var r := RecvReply(n, p, sender);
      && r.node.addr == n.addr && r.node.seen == n.seen
      && r.node.table.Keys == n.table.Keys + {p.dst}
      && (forall k :: k in n.table && k != p.dst ==> r.node.table[k] == n.table[k])
      && !Relays(r.sends)
      && forall i :: 0 <= i < |r.sends| ==>
           || r.sends[i] == Unicast(sender, RREP_ACK)
           || (&& n.addr != p.origin && p.origin in n.table && r.sends[i].Unicast?
               && r.sends[i].to == n.table[p.origin].nextHop && r.sends[i].msg.RREP?
               && r.sends[i].msg.rrep.origin == p.origin && r.sends[i].msg.rrep.dst == p.dst)
  {
  }

  lemma {:induction false} Posted(from: Addr, sends: seq<Send>, reach: set<Addr>, source: Addr, pk: Packet)
    requires pk in Post(from, sends, reach, source)
    ensures pk.from == from && pk.source == source
    ensures exists i :: 0 <= i < |sends| && sends[i].msg == pk.msg
              && (if sends[i].Broadcast? then pk.to in reach else pk.to == sends[i].to)
  {
    if pk in PostOne(from, sends[0], reach, source) {
      assert sends[0].msg == pk.msg;
    } else {
      Posted(from, sends[1..], reach, source, pk);
      var i :| 0 <= i < |sends[1..]| && sends[1..][i].msg == pk.msg
               && (if sends[1..][i].Broadcast? then pk.to in reach else pk.to == sends[1..][i].to);
      assert sends[i + 1] == sends[1..][i];
    }
  }

  // ----- every step keeps the invariant -----

  /** Fewer nodes have accepted than there are besides the originator and a node that has not. */
  lemma JoinsBound(s: Net, d: Discovery, y: Addr)
    requires Members(s.nodes, d) && History(s, d) && y in s.nodes && y != d.orig && y !in s.joins
    ensures |s.joins| <= |s.nodes| - 2
  {
    SubsetSize(s.joins.Keys, s.nodes.Keys - {d.orig, y});
    assert |s.nodes.Keys - {d.orig, y}| == |s.nodes.Keys| - 2;
  }

  /** A step in which nobody accepts. */
  lemma PlainStep(s: Net, d: Discovery, s': Net, y: Addr, n: NodeState)
    requires Inv(s, d) && y in s.nodes && s'.nodes == s.nodes[y := n]
    requires n.addr == y && n.seen == s.nodes[y].seen
    requires y != d.orig ==> ReverseAt(n, y, s.joins, d.orig)
    requires s'.joins == s.joins && s'.accepted == s.accepted && s'.relayed == s.relayed
    requires Flight(s'.flight, s.nodes.Keys, s.joins, d)
    ensures Inv(s', d)
  {
    assert s'.nodes.Keys == s.nodes.Keys;
  }

  lemma PacketOkGrows(members: set<Addr>, joins: map<Addr, Join>, d: Discovery, pk: Packet, y: Addr, j: Join)
    requires PacketOk(members, joins, d, pk) && y !in joins && y != d.orig
    ensures PacketOk(members, joins[y := j], d, pk)
  {
  }

  lemma BelowGrows(joins: map<Addr, Join>, orig: Addr, k: Join, y: Addr, j: Join)
    requires Below(joins, orig, k) && y !in joins
    ensures Below(joins[y := j], orig, k)
  {
  }

  lemma TreeGrows(joins: map<Addr, Join>, orig: Addr, y: Addr, j: Join)
    requires TreeShape(joins, orig) && y !in joins && y != orig && Below(joins, orig, j)
    requires j.hop <= |joins| + 1
    ensures TreeShape(joins[y := j], orig)
  {
    var more := joins[y := j];
    assert more.Keys == joins.Keys + {y} && |more| == |joins| + 1;
    forall x | x in more ensures more[x].hop <= |more| && Below(more, orig, more[x]) {
      assert x != y ==> Below(joins, orig, joins[x]);
      BelowGrows(joins, orig, more[x], y, j);
    }
  }

  lemma HistoryGrows(s: Net, d: Discovery, s': Net, y: Addr, n: NodeState, j: Join)
    requires History(s, d) && y in s.nodes && y != d.orig && y !in s.joins
    requires s'.nodes == s.nodes[y := n] && s'.joins == s.joins[y := j]
    requires n.seen == s.nodes[y].seen + {(d.orig, d.id)}
    requires s'.accepted == s.accepted + [y] && (s'.relayed == s.relayed || s'.relayed == s.relayed + [y])
    ensures History(s', d)
  {
    assert y !in s.accepted && y !in s.relayed;
    assert s'.joins.Keys == s.joins.Keys + {y} && s'.nodes.Keys == s.nodes.Keys;
  }

  lemma RoutesGrow(s: Net, d: Discovery, s': Net, y: Addr, n: NodeState, j: Join)
    requires ReverseRoutes(s, d.orig) && y in s.nodes && y != d.orig && y !in s.joins
    requires s'.nodes == s.nodes[y := n] && s'.joins == s.joins[y := j] && ReverseAt(n, y, s'.joins, d.orig)
    ensures ReverseRoutes(s', d.orig)
  {
    forall x | x in s'.nodes && x != d.orig ensures ReverseAt(s'.nodes[x], x, s'.joins, d.orig) {
      assert x != y ==> ReverseAt(s.nodes[x], x, s.joins, d.orig);
    }
  }

  /** A step in which y accepts the request. */
  lemma AcceptStep(s: Net, d: Discovery, s': Net, y: Addr, n: NodeState, j: Join)
    requires Inv(s, d) && y in s.nodes && y != d.orig && y !in s.joins
    requires s'.nodes == s.nodes[y := n] && s'.joins == s.joins[y := j] && Below(s.joins, d.orig, j)
    requires n.addr == y && n.seen == s.nodes[y].seen + {(d.orig, d.id)} && ReverseAt(n, y, s'.joins, d.orig)
    requires s'.accepted == s.accepted + [y] && (s'.relayed == s.relayed || s'.relayed == s.relayed + [y])
    requires Flight(s'.flight, s.nodes.Keys, s'.joins, d)
    ensures Inv(s', d)
  {
    assert s'.nodes.Keys == s.nodes.Keys;
    assert j.parent in s.joins ==> Below(s.joins, d.orig, s.joins[j.parent]);
    TreeGrows(s.joins, d.orig, y, j);
    HistoryGrows(s, d, s', y, n, j);
    RoutesGrow(s, d, s', y, n, j);
  }

  /** A received RREP or RREP_ACK, or a RREQ seen before: the route to the originator stays good. */
  lemma PlainNode(s: Net, d: Discovery, pk: Packet)
    requires Inv(s, d) && pk in s.flight && pk.to in s.nodes
    requires pk.msg.RREQ? ==> (d.orig, d.id) in s.nodes[pk.to].seen
    ensures var r := RecvAodv(s.nodes[pk.to], pk.msg, pk.from);
      && r.node.addr == pk.to && r.node.seen == s.nodes[pk.to].seen && !Relays(r.sends)
      && (pk.to != d.orig ==> ReverseAt(r.node, pk.to, s.joins, d.orig))
  {
    var n := s.nodes[pk.to];
    assert PacketOk(s.nodes.Keys, s.joins, d, pk);
    var n1 := UpdateRouteToNeighbor(n, pk.from);
    if pk.to in s.joins {
      assert Below(s.joins, d.orig, s.joins[pk.to]);
      NeighborKeepsReverse(n, pk.from, s.joins[pk.to], d.orig);
    }
    if pk.msg.RREP? {
      ReplyEffect(n1, pk.msg.rrep, pk.from);
    }
  }

  lemma PlainSends(s: Net, d: Discovery, pk: Packet, reach: set<Addr>, out: Packet)
    requires Inv(s, d) && pk in s.flight && pk.to in s.nodes
    requires pk.msg.RREQ? ==> (d.orig, d.id) in s.nodes[pk.to].seen
    requires out in Post(pk.to, RecvAodv(s.nodes[pk.to], pk.msg, pk.from).sends, reach, Source(pk))
    ensures PacketOk(s.nodes.Keys, s.joins, d, out)
  {
    var n := s.nodes[pk.to];
    var n1 := UpdateRouteToNeighbor(n, pk.from);
    assert PacketOk(s.nodes.Keys, s.joins, d, pk);
    Posted(pk.to, RecvAodv(n, pk.msg, pk.from).sends, reach, Source(pk), out);
    ReplyEffect(n1, pk.msg.rrep, pk.from);
    if pk.to in s.joins {
      var j := s.joins[pk.to];
      assert Below(s.joins, d.orig, j);
      NeighborKeepsReverse(n, pk.from, j, d.orig);
    }
  }

  /** A RREQ seen for the first time: the hop count does not wrap, and the reverse route is the tree edge. */
  lemma AcceptNode(s: Net, d: Discovery, pk: Packet) returns (j: Join)
    requires Inv(s, d) && pk in s.flight && pk.to in s.nodes
    requires pk.msg.RREQ? && (d.orig, d.id) !in s.nodes[pk.to].seen
    ensures pk.to != d.orig && pk.to !in s.joins
    ensures j == Join(pk.from, Inc8(pk.msg.rreq.hop)) && j.hop == pk.msg.rreq.hop + 1
    ensures Below(s.joins, d.orig, j)
    ensures var r := RecvAodv(s.nodes[pk.to], pk.msg, pk.from);
      && r.node.addr == pk.to && r.node.seen == s.nodes[pk.to].seen + {(d.orig, d.id)}
      && ReverseAt(r.node, pk.to, s.joins[pk.to := j], d.orig)
  {
    assert PacketOk(s.nodes.Keys, s.joins, d, pk);
    JoinsBound(s, d, pk.to);
    assert pk.from in s.joins ==> Below(s.joins, d.orig, s.joins[pk.from]);
    j := Join(pk.from, pk.msg.rreq.hop + 1);
    RequestEffect(UpdateRouteToNeighbor(s.nodes[pk.to], pk.from), pk.msg.rreq, pk.from);
  }

  lemma AcceptSends(s: Net, d: Discovery, pk: Packet, reach: set<Addr>, j: Join, out: Packet)
    requires Inv(s, d) && pk in s.flight && pk.to in s.nodes && reach <= s.nodes.Keys - {pk.to}
    requires pk.msg.RREQ? && (d.orig, d.id) !in s.nodes[pk.to].seen
    requires j == Join(pk.from, Inc8(pk.msg.rreq.hop))
    requires out in Post(pk.to, RecvAodv(s.nodes[pk.to], pk.msg, pk.from).sends, reach, Source(pk))
    ensures PacketOk(s.nodes.Keys, s.joins[pk.to := j], d, out)
  {
    var _ := AcceptNode(s, d, pk);
    assert PacketOk(s.nodes.Keys, s.joins, d, pk);
    JoinsBound(s, d, pk.to);
    Posted(pk.to, RecvAodv(s.nodes[pk.to], pk.msg, pk.from).sends, reach, Source(pk), out);
    RequestEffect(UpdateRouteToNeighbor(s.nodes[pk.to], pk.from), pk.msg.rreq, pk.from);
  }

  /** Delivering any packet in flight keeps the invariant. */
  lemma DeliverKeeps(s: Net, d: Discovery, pk: Packet, reach: set<Addr>)
    requires Inv(s, d) && Enabled(s, Deliver(pk, reach))
    ensures Inv(Receive(s, d, pk, reach), d)
  {
    var s' := Receive(s, d, pk, reach);
    var r := RecvAodv(s.nodes[pk.to], pk.msg, pk.from);
    if pk.msg.RREQ? && (d.orig, d.id) !in s.nodes[pk.to].seen {
      var j := AcceptNode(s, d, pk);
      forall out | out in s'.flight ensures PacketOk(s.nodes.Keys, s'.joins, d, out) {
        if out in s.flight {
          PacketOkGrows(s.nodes.Keys, s.joins, d, out, pk.to, j);
        } else {
          AcceptSends(s, d, pk, reach, j, out);
        }
      }
      AcceptStep(s, d, s', pk.to, r.node, j);
    } else {
      PlainNode(s, d, pk);
      forall out | out in s'.flight ensures PacketOk(s.nodes.Keys, s.joins, d, out) {
        if out !in s.flight {
          PlainSends(s, d, pk, reach, out);
        }
      }
      PlainStep(s, d, s', pk.to, r.node);
    }
  }

  lemma StepKeeps(s: Net, d: Discovery, step: Step)
    requires Inv(s, d) && Enabled(s, step)
    ensures Inv(Apply(s, d, step), d)
  {
    match step
    case Deliver(pk, reach) => DeliverKeeps(s, d, pk, reach);
    case Lose(pk) =>
      PlainStep(s, d, Apply(s, d, step), d.orig, s.nodes[d.orig]);
  }

  lemma LaunchHolds(nodes: map<Addr, NodeState>, d: Discovery, destinationOnly: bool, reach: set<Addr>)
    requires Quiet(nodes, d) && reach <= nodes.Keys - {d.orig}
    ensures Inv(Launch(nodes, d, destinationOnly, reach), d)
  {
    var s := Launch(nodes, d, destinationOnly, reach);
    var r := SendRequest(nodes[d.orig], d.dst, destinationOnly);
    assert s.nodes.Keys == nodes.Keys;
    forall pk | pk in s.flight ensures PacketOk(s.nodes.Keys, s.joins, d, pk) {
      Posted(d.orig, r.sends, reach, d.orig, pk);
    }
  }

  /** The invariant over every run: any delivery order, any losses, any listeners. */
  lemma {:induction false} RunKeeps(nodes: map<Addr, NodeState>, d: Discovery, destinationOnly: bool, reach: set<Addr>,
                                    steps: seq<Step>)
    requires Quiet(nodes, d) && reach <= nodes.Keys - {d.orig}
    requires Legal(Launch(nodes, d, destinationOnly, reach), d, steps)
    ensures Inv(Execute(Launch(nodes, d, destinationOnly, reach), d, steps), d)
  {
    if steps == [] {
      LaunchHolds(nodes, d, destinationOnly, reach);
    } else {
      var n := |steps| - 1;
      RunKeeps(nodes, d, destinationOnly, reach, steps[..n]);
      StepKeeps(Execute(Launch(nodes, d, destinationOnly, reach), d, steps[..n]), d, steps[n]);
    }
  }

  // ----- the reverse tree -----

  /** x's stored route to the originator leads to y, and y is nearer by its own stored hop count. */
  ghost predicate StepsUp(nodes: map<Addr, NodeState>, orig: Addr, x: Addr, y: Addr) {
    && x in nodes && orig in nodes[x].table && nodes[x].table[orig].nextHop == y
    && (y == orig ||
        (y in nodes && orig in nodes[y].table && nodes[y].table[orig].hop < nodes[x].table[orig].hop))
  }

  /** A chain of stored next hops to the originator along which the stored hop count strictly drops. */
  ghost predicate Climbs(nodes: map<Addr, NodeState>, orig: Addr, path: seq<Addr>) {
    && path != [] && path[|path| - 1] == orig && Distinct(path)
    && forall i :: 0 <= i < |path| - 1 ==> StepsUp(nodes, orig, path[i], path[i + 1])
  }

  lemma {:induction false} ClimbFrom(s: Net, d: Discovery, x: Addr) returns (path: seq<Addr>)
    requires Inv(s, d) && x in s.joins
    ensures Climbs(s.nodes, d.orig, path) && path[0] == x && |path| >= 2
    ensures forall i :: 0 <= i < |path| - 1 ==> path[i] in s.joins && s.joins[path[i]].hop + i <= s.joins[x].hop
    decreases s.joins[x].hop
  {
    var j, e := s.joins[x], s.nodes[x].table[d.orig];
    assert Below(s.joins, d.orig, j) && ReverseAt(s.nodes[x], x, s.joins, d.orig);
    if e.nextHop == d.orig {
      path := [x, d.orig];
    } else {
      assert ReverseAt(s.nodes[j.parent], j.parent, s.joins, d.orig);
      assert StepsUp(s.nodes, d.orig, x, j.parent);
      var tail := ClimbFrom(s, d, j.parent);
      path := [x] + tail;
      assert x !in tail[..|tail| - 1];
      forall i | 0 <= i < |path| - 1 ensures StepsUp(s.nodes, d.orig, path[i], path[i + 1]) {
        assert i > 0 ==> StepsUp(s.nodes, d.orig, tail[i - 1], tail[i]);
      }
    }
  }

  /**
   * In every reachable state: each node accepts the request at most once and relays it at most once,
   * so there are fewer relays than nodes; and from every node that accepted, the stored next hops
   * climb without repetition to the originator.
   */
  lemma FloodTheorem(nodes: map<Addr, NodeState>, d: Discovery, destinationOnly: bool, reach: set<Addr>,
                     steps: seq<Step>)
    requires Quiet(nodes, d) && reach <= nodes.Keys - {d.orig}
    requires Legal(Launch(nodes, d, destinationOnly, reach), d, steps)
    ensures var s := Execute(Launch(nodes, d, destinationOnly, reach), d, steps);
      && Distinct(s.accepted) && d.orig !in s.accepted
      && Distinct(s.relayed) && |s.relayed| < |nodes|
      && (forall x :: x in s.nodes && x != d.orig ==> (d.orig in s.nodes[x].table <==> x in s.accepted))
      && (forall x :: x in s.accepted ==> exists path :: Climbs(s.nodes, d.orig, path) && path[0] == x)
  {
    RunKeeps(nodes, d, destinationOnly, reach, steps);
    var s := Execute(Launch(nodes, d, destinationOnly, reach), d, steps);
    NodesStay(nodes, d, destinationOnly, reach, steps);
    DistinctBound(s.relayed, s.nodes.Keys - {d.orig});
    forall x | x in s.accepted ensures exists path :: Climbs(s.nodes, d.orig, path) && path[0] == x {
      var path := ClimbFrom(s, d, x);
    }
    forall x | x in s.nodes && x != d.orig ensures d.orig in s.nodes[x].table <==> x in s.accepted {
      assert ReverseAt(s.nodes[x], x, s.joins, d.orig);
    }
  }

  lemma {:induction false} NodesStay(nodes: map<Addr, NodeState>, d: Discovery, destinationOnly: bool,
                                     reach: set<Addr>, steps: seq<Step>)
    requires Quiet(nodes, d) && Legal(Launch(nodes, d, destinationOnly, reach), d, steps)
    ensures Execute(Launch(nodes, d, destinationOnly, reach), d, steps).nodes.Keys == nodes.Keys
  {
    if steps != [] {
      NodesStay(nodes, d, destinationOnly, reach, steps[..|steps| - 1]);
    }
  }
}
