/**
 * The route replies of the same discovery, from the same quiet networks: every RREP, whether the destination
 * or an intermediate node answers, climbs the tree of AodvFlood to the originator.
 */
module AodvReply {
  import opened Sequences
  import opened Words
  import opened Options
  import opened AodvNode
  import opened AodvFlood

  function Last(trail: seq<Addr>): Addr
    requires trail != []
  {
    trail[|trail| - 1]
  }

  /** Position i of a trail: the originator, at the end, or the tree parent of the node before it. */
  ghost predicate AtLevel(t: seq<Addr>, i: nat, joins: map<Addr, Join>, orig: Addr)
    requires i < |t| && t[0] in joins
  {
    if t[i] == orig then i > 0 && i == |t| - 1
    else
      && t[i] in joins && joins[t[i]].hop >= 1 && joins[t[i]].hop + i == joins[t[0]].hop
      && (i > 0 ==> t[i - 1] in joins && t[i] == joins[t[i - 1]].parent)
  }

  /** The reply of x has come through t, one tree level nearer to the originator with every hop. */
  ghost predicate Trail(t: seq<Addr>, x: Addr, joins: map<Addr, Join>, orig: Addr) {
    && t != [] && t[0] == x && x in joins
    && forall i :: 0 <= i < |t| ==> AtLevel(t, i, joins, orig)
  }

  ghost predicate Trails(trails: map<Addr, seq<Addr>>, joins: map<Addr, Join>, orig: Addr) {
    forall x :: x in trails ==> Trail(trails[x], x, joins, orig)
  }

  /** The destination answers and does not relay, so nobody hangs below it. */
  ghost predicate Childless(joins: map<Addr, Join>, dst: Addr) {
    forall x :: x in joins ==> joins[x].parent != dst
  }

  /** A RREP in flight leaves the end of its trail. */
  ghost predicate AtTrailEnd(trails: map<Addr, seq<Addr>>, lost: set<Addr>, orig: Addr, pk: Packet) {
    && pk.source in trails && pk.source !in lost && trails[pk.source] != []
    && Last(trails[pk.source]) == pk.from && pk.from != orig
  }

  ghost predicate InFlight(flight: multiset<Packet>, x: Addr) {
    exists pk :: pk in flight && pk.msg.RREP? && pk.source == x
  }

  /** Every reply is in flight exactly once until it arrives or is lost. */
  ghost predicate Replies(flight: multiset<Packet>, trails: map<Addr, seq<Addr>>, lost: set<Addr>, orig: Addr) {
    && (forall x :: x in trails ==> trails[x] != [])
    && lost <= trails.Keys
    && (forall pk :: pk in flight && pk.msg.RREP? ==> flight[pk] == 1 && AtTrailEnd(trails, lost, orig, pk))
    && (forall p, q :: p in flight && q in flight && p.msg.RREP? && q.msg.RREP? && p.source == q.source ==> p == q)
    && (forall x :: x in trails ==> x in lost || Last(trails[x]) == orig || InFlight(flight, x))
  }

  ghost predicate ReplyInv(s: Net, d: Discovery) {
    && Inv(s, d) && Childless(s.joins, d.dst) && Trails(s.trails, s.joins, d.orig)
    && Replies(s.flight, s.trails, s.lost, d.orig)
    && (d.dst in s.joins ==> d.dst in s.trails)
    && (forall pk :: pk in s.flight && pk.from == d.dst ==> pk.msg.RREP?)
  }

  // ----- trails -----

  lemma TrailDistinct(t: seq<Addr>, x: Addr, joins: map<Addr, Join>, orig: Addr)
    requires Trail(t, x, joins, orig)
    ensures Distinct(t) && |t| <= joins[x].hop + 1 && (Last(t) != orig ==> |t| <= joins[x].hop)
    ensures forall y :: y in t ==> y == orig || y in joins
    ensures Last(t) != orig ==> orig !in t
  {
    forall i, j | 0 <= i < j < |t| ensures t[i] != t[j] {
      assert AtLevel(t, i, joins, orig) && AtLevel(t, j, joins, orig);
    }
    forall y | y in t ensures (y == orig || y in joins) && (Last(t) != orig ==> y != orig) {
      var i :| 0 <= i < |t| && t[i] == y;
      assert AtLevel(t, i, joins, orig);
    }
    assert AtLevel(t, |t| - 1, joins, orig);
    if Last(t) == orig {
      assert AtLevel(t, |t| - 2, joins, orig);
    }
  }

  lemma TrailOutlivesJoin(t: seq<Addr>, x: Addr, joins: map<Addr, Join>, orig: Addr, y: Addr, j: Join)
    requires Trail(t, x, joins, orig) && y !in joins
    ensures Trail(t, x, joins[y := j], orig)
  {
    var more := joins[y := j];
    forall i | 0 <= i < |t| ensures AtLevel(t, i, more, orig) {
      assert AtLevel(t, i, joins, orig);
    }
  }

  /** One hop more, to the tree parent or straight to the originator. */
  lemma TrailExtends(t: seq<Addr>, x: Addr, joins: map<Addr, Join>, orig: Addr, y: Addr)
    requires Trail(t, x, joins, orig) && Last(t) != orig && TreeShape(joins, orig)
    requires Last(t) in joins && (y == orig || y == joins[Last(t)].parent)
    ensures Trail(t + [y], x, joins, orig) && y !in t
  {
    var more, n := t + [y], |t| - 1;
    assert AtLevel(t, n, joins, orig) && Below(joins, orig, joins[Last(t)]);
    forall i | 0 <= i < |more| ensures AtLevel(more, i, joins, orig) {
      assert i <= n ==> AtLevel(t, i, joins, orig);
    }
    TrailDistinct(t, x, joins, orig);
    forall i | 0 <= i < |t| ensures t[i] != y {
      assert AtLevel(t, i, joins, orig);
    }
  }

  // ----- what one handler call does -----

  /** The acknowledgement that a RREP may ask for. */
  function Ack(p: Rrep, sender: Addr): seq<Send> {
    if p.ackRequired then [Unicast(sender, RREP_ACK)] else []
  }

  /** The RREP as it is passed on. */
  function Next(p: Rrep): Rrep { p.(hop := Inc8(p.hop), ackRequired := false) }

  /** The entry for dst once the sender has been heard. */
  function Heard(n: NodeState, sender: Addr, dst: Addr): Option<Route> {
    Lookup(UpdateRouteToNeighbor(n, sender).table, dst)
  }

  function Offer(p: Rrep, sender: Addr): Route { Route(true, p.dstSeqno, Inc8(p.hop), sender, VALID) }

  function Settled(prior: Option<Route>, offer: Route): Route {
    if prior.Some? then ReplyRule(prior.value, offer) else offer
  }

  /** A node with a reverse route passes every RREP on, whatever entry it has for the destination. */
  lemma RelayedReply(n: NodeState, p: Rrep, sender: Addr)
    requires p.dst != p.origin && p.origin != n.addr && sender != p.origin
    requires p.origin in n.table && n.table[p.origin].flag == VALID
    ensures var r := RecvAodv(n, RREP(p), sender);
      && r.sends == Ack(p, sender) + [Unicast(n.table[p.origin].nextHop, RREP(Next(p)))]
      && Lookup(r.node.table, p.dst) == Some(Settled(Heard(n, sender, p.dst), Offer(p, sender)))
  {
  }

  /** The originator passes nothing on; while it searches it takes what is offered. */
  lemma ArrivedReply(n: NodeState, p: Rrep, sender: Addr)
    requires p.dst != p.origin && p.origin == n.addr
    ensures var r := RecvAodv(n, RREP(p), sender);
      var prior := Heard(n, sender, p.dst);
      var searching := prior.Some? && prior.value.flag == IN_SEARCH;
      && r.sends == Ack(p, sender)
      && Lookup(r.node.table, p.dst)
         == Some(if searching then Offer(p, sender) else Settled(prior, Offer(p, sender)))
  {
  }

  /** The destination answers a fresh request with its own sequence number. */
  lemma DestinationAnswers(n: NodeState, q: Rreq, src: Addr)
    requires (q.origin, q.id) !in n.seen && q.dst == n.addr
    ensures var r := RecvRequest(n, q, src);
      r.sends == [Unicast(src, RREP(Rrep(0, q.dst, r.node.seqNo, q.origin, false)))]
  {
  }

  lemma PostedOne(from: Addr, to: Addr, msg: Message, reach: set<Addr>, source: Addr)
    ensures Post(from, [Unicast(to, msg)], reach, source) == multiset{Packet(from, to, msg, source)}
  {
    assert [Unicast(to, msg)][1..] == [];
  }

  lemma PostedTo(from: Addr, msg: Message, to: Addr, source: Addr)
    ensures Post(from, [Broadcast(msg)], {to}, source) == multiset{Packet(from, to, msg, source)}
  {
    assert [Broadcast(msg)][1..] == [];
    assert (set r | r in {to} :: Packet(from, r, msg, source)) == {Packet(from, to, msg, source)};
  }

  /** What a node that passes a RREP on puts in flight. */
  lemma PostedNext(from: Addr, p: Rrep, sender: Addr, to: Addr, reach: set<Addr>, source: Addr)
    ensures var sent := Post(from, Ack(p, sender) + [Unicast(to, RREP(Next(p)))], reach, source);
      var out := Packet(from, to, RREP(Next(p)), source);
      sent[out] == 1 && forall o :: o in sent && o != out ==> o.msg.RREP_ACK? && o.from == from
  {
    var out := Packet(from, to, RREP(Next(p)), source);
    PostedOne(from, to, RREP(Next(p)), reach, source);
    var last := [Unicast(to, RREP(Next(p)))];
    if p.ackRequired {
      var sends := Ack(p, sender) + last;
      assert sends[1..] == last;
      assert Post(from, sends, reach, source)
          == multiset{Packet(from, sender, RREP_ACK, source)} + multiset{out};
    } else {
      assert Ack(p, sender) + last == last;
    }
  }

  lemma PostedAck(from: Addr, p: Rrep, sender: Addr, reach: set<Addr>, source: Addr)
    ensures forall o :: o in Post(from, Ack(p, sender), reach, source) ==> o.msg.RREP_ACK? && o.from == from
  {
    if p.ackRequired {
      PostedOne(from, sender, RREP_ACK, reach, source);
    }
  }

  // ----- what becomes of the replies in flight -----

  lemma StillInFlight(flight: multiset<Packet>, x: Addr, pk: Packet, sent: multiset<Packet>)
    requires InFlight(flight, x) && !(pk.msg.RREP? && pk.source == x)
    ensures InFlight(flight - multiset{pk} + sent, x)
  {
    var p :| p in flight && p.msg.RREP? && p.source == x;
    assert p in flight - multiset{pk} + sent;
  }

  /** Requests and acknowledgements come and go without touching the replies. */
  lemma OthersOnly(flight: multiset<Packet>, trails: map<Addr, seq<Addr>>, lost: set<Addr>, orig: Addr,
                   pk: Packet, sent: multiset<Packet>)
    requires Replies(flight, trails, lost, orig) && pk in flight && !pk.msg.RREP?
    requires forall o :: o in sent ==> !o.msg.RREP?
    ensures Replies(flight - multiset{pk} + sent, trails, lost, orig)
  {
    var next := flight - multiset{pk} + sent;
    forall o | o in next && o.msg.RREP? ensures o in flight && next[o] == flight[o] {
      assert o !in sent;
    }
    forall x | x in trails && x !in lost && Last(trails[x]) != orig ensures InFlight(next, x) {
      StillInFlight(flight, x, pk, sent);
    }
  }

  /** A node answers: a new trail begins, and its reply is in flight. */
  lemma ReplyStarts(flight: multiset<Packet>, trails: map<Addr, seq<Addr>>, lost: set<Addr>, orig: Addr,
                    pk: Packet, out: Packet)
    requires Replies(flight, trails, lost, orig) && pk in flight && !pk.msg.RREP?
    requires out.msg.RREP? && out.source == out.from && out.from !in trails && out.from != orig
    ensures Replies(flight - multiset{pk} + multiset{out}, trails[out.from := [out.from]], lost, orig)
  {
    var next, more := flight - multiset{pk} + multiset{out}, trails[out.from := [out.from]];
    assert out !in flight;
    forall o | o in next && o.msg.RREP? ensures next[o] == 1 && AtTrailEnd(more, lost, orig, o) {
      assert o == out || o in flight;
    }
    forall x | x in more && x !in lost && Last(more[x]) != orig ensures InFlight(next, x) {
      if x == out.from {
        assert out in next;
      } else {
        StillInFlight(flight, x, pk, multiset{out});
      }
    }
  }

  /** A reply is received at y: its trail grows, and unless y is the originator it is in flight again. */
  lemma ReplyMoves(flight: multiset<Packet>, trails: map<Addr, seq<Addr>>, lost: set<Addr>, orig: Addr,
                   pk: Packet, sent: multiset<Packet>, out: Packet)
    requires Replies(flight, trails, lost, orig) && pk in flight && pk.msg.RREP? && pk.source in trails
    requires forall o :: o in sent && o.msg.RREP? ==> o == out && sent[o] == 1 && pk.to != orig
    requires pk.to != orig ==> out in sent && out.msg.RREP? && out.source == pk.source && out.from == pk.to
    ensures Replies(flight - multiset{pk} + sent, trails[pk.source := trails[pk.source] + [pk.to]], lost, orig)
  {
    var next, more := flight - multiset{pk} + sent, trails[pk.source := trails[pk.source] + [pk.to]];
    assert AtTrailEnd(trails, lost, orig, pk);
    forall o | o in next && o.msg.RREP? ensures next[o] == 1 && AtTrailEnd(more, lost, orig, o) {
      if o in sent {
        assert o !in flight - multiset{pk};
      } else {
        assert o in flight && o != pk;
      }
    }
    forall x | x in more && x !in lost && Last(more[x]) != orig ensures InFlight(next, x) {
      if x == pk.source {
        assert out in next;
      } else {
        StillInFlight(flight, x, pk, sent);
      }
    }
  }

  lemma PacketLost(flight: multiset<Packet>, trails: map<Addr, seq<Addr>>, lost: set<Addr>, orig: Addr, pk: Packet)
    requires Replies(flight, trails, lost, orig) && pk in flight
    ensures Replies(flight - multiset{pk}, trails, if pk.msg.RREP? then lost + {pk.source} else lost, orig)
  {
    var next := flight - multiset{pk};
    forall o | o in next && o.msg.RREP? ensures o in flight && next[o] == flight[o] && o != pk {
    }
    forall x | x in trails && x !in lost && !(pk.msg.RREP? && x == pk.source) && Last(trails[x]) != orig
      ensures InFlight(next, x)
    {
      StillInFlight(flight, x, pk, multiset{});
      assert next + multiset{} == next;
    }
  }

  // ----- every step keeps the invariant -----

  lemma TrailsGrow(trails: map<Addr, seq<Addr>>, joins: map<Addr, Join>, orig: Addr, y: Addr, j: Join)
    requires Trails(trails, joins, orig) && y !in joins && y != orig && j.hop >= 1
    ensures Trails(trails, joins[y := j], orig) && Trails(trails[y := [y]], joins[y := j], orig)
    ensures y !in trails
  {
    var more := joins[y := j];
    forall x | x in trails ensures Trail(trails[x], x, more, orig) {
      TrailOutlivesJoin(trails[x], x, joins, orig, y, j);
    }
    assert y in trails ==> Trail(trails[y], y, joins, orig);
    assert AtLevel([y], 0, more, orig);
  }

  /** What a node sends when it accepts the request: an answer, or no RREP at all. */
  lemma AcceptedSends(s: Net, d: Discovery, pk: Packet, reach: set<Addr>) returns (answer: Option<Packet>)
    requires Inv(s, d) && Enabled(s, Deliver(pk, reach)) && pk.msg.RREQ? && (d.orig, d.id) !in s.nodes[pk.to].seen
    ensures var r := RecvAodv(s.nodes[pk.to], pk.msg, pk.from);
      var sent := Post(pk.to, r.sends, reach, pk.to);
      && (answer.Some? <==> Answers(r.sends))
      && (pk.to == d.dst ==> answer.Some?)
      && match answer {
           case Some(out) =>
             sent == multiset{out} && out.msg.RREP? && out.from == pk.to && out.source == pk.to && out.to == pk.from
           case None => forall o :: o in sent ==> !o.msg.RREP? && o.from == pk.to
         }
  {
    assert PacketOk(s.nodes.Keys, s.joins, d, pk);
    var _ := AcceptNode(s, d, pk);
    JoinsBound(s, d, pk.to);
    var n1 := UpdateRouteToNeighbor(s.nodes[pk.to], pk.from);
    RequestEffect(n1, pk.msg.rreq, pk.from);
    if pk.to == d.dst {
      DestinationAnswers(n1, pk.msg.rreq, pk.from);
    }
    var sends := RecvRequest(n1, pk.msg.rreq, pk.from).sends;
    if Answers(sends) {
      assert |sends| == 1;
      PostedOne(pk.to, pk.from, sends[0].msg, reach, pk.to);
      answer := Some(Packet(pk.to, pk.from, sends[0].msg, pk.to));
    } else {
      answer := None;
      forall o | o in Post(pk.to, sends, reach, pk.to) ensures !o.msg.RREP? && o.from == pk.to {
        Posted(pk.to, sends, reach, pk.to, o);
      }
    }
  }

  /** What the acceptance changes, apart from the nodes. */
  lemma AcceptedParts(s: Net, d: Discovery, pk: Packet, reach: set<Addr>) returns (j: Join)
    requires Inv(s, d) && Enabled(s, Deliver(pk, reach)) && pk.msg.RREQ? && (d.orig, d.id) !in s.nodes[pk.to].seen
    ensures pk.to != d.orig && pk.to !in s.joins && j.hop >= 1 && j.parent == pk.from
    ensures var sends, s' := RecvAodv(s.nodes[pk.to], pk.msg, pk.from).sends, Receive(s, d, pk, reach);
      && s'.nodes == s.nodes[pk.to := RecvAodv(s.nodes[pk.to], pk.msg, pk.from).node]
      && s'.joins == s.joins[pk.to := j] && s'.lost == s.lost
      && s'.flight == s.flight - multiset{pk} + Post(pk.to, sends, reach, pk.to)
      && s'.trails == if Answers(sends) then s.trails[pk.to := [pk.to]] else s.trails
  {
    hide RecvAodv, Post, Answers, Inv;
    j := AcceptNode(s, d, pk);
  }

  lemma RequestAccepted(s: Net, d: Discovery, pk: Packet, reach: set<Addr>)
    requires ReplyInv(s, d) && Enabled(s, Deliver(pk, reach)) && pk.msg.RREQ?
    requires (d.orig, d.id) !in s.nodes[pk.to].seen
    ensures ReplyInv(Receive(s, d, pk, reach), d)
  {
    hide Replies, Trails, Receive, RecvAodv, Post, Answers, Inv;
    DeliverKeeps(s, d, pk, reach);
    var j := AcceptedParts(s, d, pk, reach);
    var answer := AcceptedSends(s, d, pk, reach);
    var sends := RecvAodv(s.nodes[pk.to], pk.msg, pk.from).sends;
    TrailsGrow(s.trails, s.joins, d.orig, pk.to, j);
    if answer.Some? {
      ReplyStarts(s.flight, s.trails, s.lost, d.orig, pk, answer.value);
    } else {
      OthersOnly(s.flight, s.trails, s.lost, d.orig, pk, Post(pk.to, sends, reach, pk.to));
    }
  }

  /** A packet that makes nobody accept. */
  lemma OtherParts(s: Net, d: Discovery, pk: Packet, reach: set<Addr>)
    requires Inv(s, d) && Enabled(s, Deliver(pk, reach))
    requires pk.msg.RREQ? ==> (d.orig, d.id) in s.nodes[pk.to].seen
    ensures var s', r := Receive(s, d, pk, reach), RecvAodv(s.nodes[pk.to], pk.msg, pk.from);
      && s'.joins == s.joins && s'.nodes == s.nodes[pk.to := r.node] && s'.nodes.Keys == s.nodes.Keys
      && s'.lost == s.lost && (!pk.msg.RREP? ==> s'.trails == s.trails)
      && s'.flight == s.flight - multiset{pk} + Post(pk.to, r.sends, reach, Source(pk))
      && (!pk.msg.RREP? ==> Post(pk.to, r.sends, reach, Source(pk)) == multiset{})
  {
    PlainNode(s, d, pk);
    if !pk.msg.RREP? {
      Quieted(s, d, pk);
    }
    hide RecvAodv, Inv;
  }

  lemma Quieted(s: Net, d: Discovery, pk: Packet)
    requires Inv(s, d) && pk in s.flight && pk.to in s.nodes && !pk.msg.RREP?
    requires pk.msg.RREQ? ==> (d.orig, d.id) in s.nodes[pk.to].seen
    ensures RecvAodv(s.nodes[pk.to], pk.msg, pk.from).sends == []
  {
    assert PacketOk(s.nodes.Keys, s.joins, d, pk);
  }

  /** A request seen before, or an acknowledgement. */
  lemma OtherReceived(s: Net, d: Discovery, pk: Packet, reach: set<Addr>)
    requires ReplyInv(s, d) && Enabled(s, Deliver(pk, reach)) && !pk.msg.RREP?
    requires pk.msg.RREQ? ==> (d.orig, d.id) in s.nodes[pk.to].seen
    ensures ReplyInv(Receive(s, d, pk, reach), d)
  {
    hide Replies, Trails, Receive, RecvAodv, Post, Answers, Inv;
    DeliverKeeps(s, d, pk, reach);
    OtherParts(s, d, pk, reach);
    OthersOnly(s.flight, s.trails, s.lost, d.orig, pk, multiset{});
  }

  /** A received RREP goes on: to the originator, or one tree level up. */
  lemma NextReply(s: Net, d: Discovery, pk: Packet, reach: set<Addr>) returns (out: Packet)
    requires ReplyInv(s, d) && Enabled(s, Deliver(pk, reach)) && pk.msg.RREP?
    ensures var r := RecvAodv(s.nodes[pk.to], pk.msg, pk.from);
      var sent := Post(pk.to, r.sends, reach, pk.source);
      && (forall o :: o in sent ==> o.from == pk.to && (o.msg.RREP? ==> o == out && sent[o] == 1 && pk.to != d.orig))
      && (pk.to != d.orig ==>
            && d.orig in s.nodes[pk.to].table && out in sent
            && out == Packet(pk.to, s.nodes[pk.to].table[d.orig].nextHop, RREP(Next(pk.msg.rrep)), pk.source))
  {
    var n, p := s.nodes[pk.to], pk.msg.rrep;
    assert PacketOk(s.nodes.Keys, s.joins, d, pk) && AtTrailEnd(s.trails, s.lost, d.orig, pk);
    out := pk;
    if pk.to == d.orig {
      ArrivedReply(n, p, pk.from);
      PostedAck(pk.to, p, pk.from, reach, pk.source);
    } else {
      assert Below(s.joins, d.orig, s.joins[pk.from]) && ReverseAt(n, pk.to, s.joins, d.orig);
      RelayedReply(n, p, pk.from);
      var to := n.table[d.orig].nextHop;
      PostedNext(pk.to, p, pk.from, to, reach, pk.source);
      out := Packet(pk.to, to, RREP(Next(p)), pk.source);
    }
  }

  /** Receiving a RREP makes nobody send a request. */
  lemma NoRequests(s: Net, d: Discovery, pk: Packet, reach: set<Addr>)
    requires Inv(s, d) && Enabled(s, Deliver(pk, reach)) && pk.msg.RREP?
    ensures var sends := RecvAodv(s.nodes[pk.to], pk.msg, pk.from).sends;
      forall o :: o in Post(pk.to, sends, reach, Source(pk)) ==> !o.msg.RREQ?
  {
    var sends := RecvAodv(s.nodes[pk.to], pk.msg, pk.from).sends;
    forall o | o in Post(pk.to, sends, reach, Source(pk)) ensures !o.msg.RREQ? {
      Posted(pk.to, sends, reach, Source(pk), o);
      PlainNode(s, d, pk);
    }
  }

  /** Nobody sends a RREP to the destination. */
  lemma NotToDestination(s: Net, d: Discovery, pk: Packet)
    requires ReplyInv(s, d) && pk in s.flight && pk.msg.RREP?
    ensures pk.to != d.dst && pk.to in s.nodes && pk.source in s.trails && pk.from in s.joins
    ensures pk.from == d.dst ==> pk.source == d.dst && s.trails[d.dst] == [d.dst]
    ensures Trail(s.trails[pk.source] + [pk.to], pk.source, s.joins, d.orig) && pk.to !in s.trails[pk.source]
    ensures Trail(s.trails[pk.source], pk.source, s.joins, d.orig) && Last(s.trails[pk.source]) == pk.from
  {
    assert PacketOk(s.nodes.Keys, s.joins, d, pk) && AtTrailEnd(s.trails, s.lost, d.orig, pk);
    var t := s.trails[pk.source];
    assert AtLevel(t, |t| - 1, s.joins, d.orig);
    TrailExtends(t, pk.source, s.joins, d.orig, pk.to);
  }

  /** What a received RREP changes, apart from the node. */
  lemma ReceivedParts(s: Net, d: Discovery, pk: Packet, reach: set<Addr>)
    requires Inv(s, d) && Enabled(s, Deliver(pk, reach)) && pk.msg.RREP? && pk.source in s.trails
    ensures var sends, s' := RecvAodv(s.nodes[pk.to], pk.msg, pk.from).sends, Receive(s, d, pk, reach);
      && s'.nodes == s.nodes[pk.to := RecvAodv(s.nodes[pk.to], pk.msg, pk.from).node]
      && s'.joins == s.joins && s'.lost == s.lost
      && s'.flight == s.flight - multiset{pk} + Post(pk.to, sends, reach, pk.source)
      && s'.trails == s.trails[pk.source := s.trails[pk.source] + [pk.to]]
  {
    hide RecvAodv, Post, Inv;
    PlainNode(s, d, pk);
  }

  lemma ReplyReceived(s: Net, d: Discovery, pk: Packet, reach: set<Addr>)
    requires ReplyInv(s, d) && Enabled(s, Deliver(pk, reach)) && pk.msg.RREP?
    ensures ReplyInv(Receive(s, d, pk, reach), d)
    ensures Receive(s, d, pk, reach).trails == s.trails[pk.source := s.trails[pk.source] + [pk.to]]
  {
    hide Trail, Replies, Receive, RecvAodv, Post, Inv;
    DeliverKeeps(s, d, pk, reach);
    NotToDestination(s, d, pk);
    ReceivedParts(s, d, pk, reach);
    var out := NextReply(s, d, pk, reach);
    ReplyMoves(s.flight, s.trails, s.lost, d.orig, pk,
               Post(pk.to, RecvAodv(s.nodes[pk.to], pk.msg, pk.from).sends, reach, pk.source), out);
  }

  lemma ReplyStepKeeps(s: Net, d: Discovery, step: Step)
    requires ReplyInv(s, d) && Enabled(s, step)
    ensures ReplyInv(Apply(s, d, step), d)
  {
    match step
    case Lose(pk) =>
      StepKeeps(s, d, step);
      PacketLost(s.flight, s.trails, s.lost, d.orig, pk);
    case Deliver(pk, reach) =>
      if pk.msg.RREP? {
        ReplyReceived(s, d, pk, reach);
      } else if pk.msg.RREQ? && (d.orig, d.id) !in s.nodes[pk.to].seen {
        RequestAccepted(s, d, pk, reach);
      } else {
        OtherReceived(s, d, pk, reach);
      }
  }

  lemma ReplyLaunch(nodes: map<Addr, NodeState>, d: Discovery, destinationOnly: bool, reach: set<Addr>)
    requires Quiet(nodes, d) && reach <= nodes.Keys - {d.orig}
    ensures ReplyInv(Launch(nodes, d, destinationOnly, reach), d)
  {
    LaunchHolds(nodes, d, destinationOnly, reach);
    var s := Launch(nodes, d, destinationOnly, reach);
    var r := SendRequest(nodes[d.orig], d.dst, destinationOnly);
    forall pk | pk in s.flight ensures pk.msg.RREQ? && pk.from == d.orig {
      Posted(d.orig, r.sends, reach, d.orig, pk);
    }
  }

  /** The invariant over every run from a quiet network. */
  lemma {:induction false} ReplyRunKeeps(nodes: map<Addr, NodeState>, d: Discovery, destinationOnly: bool,
                                         reach: set<Addr>, steps: seq<Step>)
    requires Quiet(nodes, d) && reach <= nodes.Keys - {d.orig}
    requires Legal(Launch(nodes, d, destinationOnly, reach), d, steps)
    ensures ReplyInv(Execute(Launch(nodes, d, destinationOnly, reach), d, steps), d)
  {
    if steps == [] {
      ReplyLaunch(nodes, d, destinationOnly, reach);
    } else {
      var n := |steps| - 1;
      ReplyRunKeeps(nodes, d, destinationOnly, reach, steps[..n]);
      ReplyStepKeeps(Execute(Launch(nodes, d, destinationOnly, reach), d, steps[..n]), d, steps[n]);
    }
  }

  // ----- the main results -----

  /** Where the reply of x is: with the originator, lost, or in flight as one packet from the end of its trail. */
  ghost predicate Whereabouts(s: Net, d: Discovery, x: Addr)
    requires x in s.trails && s.trails[x] != []
  {
    var arrived := Last(s.trails[x]) == d.orig;
    if InFlight(s.flight, x) then
      && !arrived && x !in s.lost
      && forall pk :: pk in s.flight && pk.msg.RREP? && pk.source == x ==>
           && s.flight[pk] == 1 && pk.from == Last(s.trails[x]) && pk.to !in s.trails[x]
           && (pk.to == d.orig || (pk.from in s.joins && pk.to == s.joins[pk.from].parent))
    else arrived || x in s.lost
  }

  /**
   * In every reachable state of every discovery, whatever entries the nodes have for the destination: the
   * destination has answered if it has accepted, and for each node that answered, its reply has visited no
   * node twice, has come one tree level nearer to the originator with every hop, and, unless the network
   * lost it, has reached the originator or is on its way in exactly one packet, to a node it has not visited.
   */
  lemma ReplyTheorem(nodes: map<Addr, NodeState>, d: Discovery, destinationOnly: bool, reach: set<Addr>,
                     steps: seq<Step>)
    requires Quiet(nodes, d) && reach <= nodes.Keys - {d.orig}
    requires Legal(Launch(nodes, d, destinationOnly, reach), d, steps)
    ensures var s := Execute(Launch(nodes, d, destinationOnly, reach), d, steps);
      && (d.dst in s.accepted <==> d.dst in s.trails)
      && forall x :: x in s.trails ==>
           && x in s.accepted && Trail(s.trails[x], x, s.joins, d.orig)
           && Distinct(s.trails[x]) && |s.trails[x]| <= s.joins[x].hop + 1
           && Whereabouts(s, d, x)
  {
    hide Execute, Legal, Launch, Trail, Whereabouts;
    ReplyRunKeeps(nodes, d, destinationOnly, reach, steps);
    RepliesNow(Execute(Launch(nodes, d, destinationOnly, reach), d, steps), d);
  }

  lemma RepliesNow(s: Net, d: Discovery)
    requires ReplyInv(s, d)
    ensures d.dst in s.accepted <==> d.dst in s.trails
    ensures forall x :: x in s.trails ==>
      && x in s.accepted && Trail(s.trails[x], x, s.joins, d.orig)
      && Distinct(s.trails[x]) && |s.trails[x]| <= s.joins[x].hop + 1
      && Whereabouts(s, d, x)
  {
    hide Whereabouts;
    forall x | x in s.trails
      ensures Distinct(s.trails[x]) && |s.trails[x]| <= s.joins[x].hop + 1 && Whereabouts(s, d, x)
    {
      TrailDistinct(s.trails[x], x, s.joins, d.orig);
      ReplyWhereabouts(s, d, x);
    }
  }

  lemma ReplyWhereabouts(s: Net, d: Discovery, x: Addr)
    requires ReplyInv(s, d) && x in s.trails
    ensures Whereabouts(s, d, x)
  {
    forall pk | pk in s.flight && pk.msg.RREP? && pk.source == x
      ensures s.flight[pk] == 1 && pk.from == Last(s.trails[x]) && pk.to !in s.trails[x]
      ensures x !in s.lost && pk.from != d.orig
      ensures pk.to == d.orig || (pk.from in s.joins && pk.to == s.joins[pk.from].parent)
    {
      NotToDestination(s, d, pk);
      assert AtTrailEnd(s.trails, s.lost, d.orig, pk) && PacketOk(s.nodes.Keys, s.joins, d, pk);
    }
  }

  /** A received reply is always passed on: whoever is not the originator puts it in flight again. */
  lemma PassedOn(s: Net, d: Discovery, pk: Packet, reach: set<Addr>)
    requires ReplyInv(s, d) && Enabled(s, Deliver(pk, reach)) && pk.msg.RREP?
    ensures var s' := Receive(s, d, pk, reach);
      && s'.trails[pk.source] == s.trails[pk.source] + [pk.to]
      && (InFlight(s'.flight, pk.source) <==> pk.to != d.orig)
  {
    NotToDestination(s, d, pk);
    ReplyReceived(s, d, pk, reach);
    var s' := Receive(s, d, pk, reach);
    assert AtTrailEnd(s.trails, s.lost, d.orig, pk);
    assert Last(s'.trails[pk.source]) == pk.to;
    ReplyWhereabouts(s', d, pk.source);
  }

  /**
   * Any reply that is not lost can be brought home from any reachable state: delivering it again and again
   * takes no more steps than its node is deep in the tree.
   */
  lemma {:induction false} ReplyArrives(s: Net, d: Discovery, x: Addr) returns (steps: seq<Step>)
    requires ReplyInv(s, d) && x in s.trails && x !in s.lost
    ensures Legal(s, d, steps)
    ensures var end := Execute(s, d, steps);
      x in end.trails && end.trails[x] != [] && Last(end.trails[x]) == d.orig && |end.trails[x]| <= s.joins[x].hop + 1
    ensures |steps| <= s.joins[x].hop
    ensures |s.trails[x]| + |steps| <= s.joins[x].hop + 1
    decreases s.joins[x].hop + 1 - |s.trails[x]|
  {
    TrailDistinct(s.trails[x], x, s.joins, d.orig);
    if Last(s.trails[x]) == d.orig {
      steps := [];
    } else {
      var pk :| pk in s.flight && pk.msg.RREP? && pk.source == x;
      NotToDestination(s, d, pk);
      ReplyReceived(s, d, pk, {});
      var rest := ReplyArrives(Receive(s, d, pk, {}), d, x);
      steps := [Deliver(pk, {})] + rest;
      ExecuteCons(s, d, Deliver(pk, {}), rest);
    }
  }

  /** The same from any run: a reply that is not lost yet can still reach the originator. */
  lemma ReplyCanArrive(nodes: map<Addr, NodeState>, d: Discovery, destinationOnly: bool, reach: set<Addr>,
                       steps: seq<Step>, x: Addr)
      returns (more: seq<Step>)
    requires Quiet(nodes, d) && reach <= nodes.Keys - {d.orig}
    requires Legal(Launch(nodes, d, destinationOnly, reach), d, steps)
    requires var s := Execute(Launch(nodes, d, destinationOnly, reach), d, steps); x in s.trails && x !in s.lost
    ensures var s := Execute(Launch(nodes, d, destinationOnly, reach), d, steps);
      && x in s.joins && |more| <= s.joins[x].hop && Legal(s, d, more)
      && x in Execute(s, d, more).trails && Execute(s, d, more).trails[x] != []
      && Last(Execute(s, d, more).trails[x]) == d.orig
  {
    hide Execute, Legal, Launch;
    ReplyRunKeeps(nodes, d, destinationOnly, reach, steps);
    var s := Execute(Launch(nodes, d, destinationOnly, reach), d, steps);
    assert Trail(s.trails[x], x, s.joins, d.orig);
    more := ReplyArrives(s, d, x);
  }

  /** One step more at the end of a run. */
  lemma RunOn(start: Net, d: Discovery, steps: seq<Step>, e: Step)
    requires Legal(start, d, steps) && Enabled(Execute(start, d, steps), e)
    ensures Legal(start, d, steps + [e])
    ensures Execute(start, d, steps + [e]) == Apply(Execute(start, d, steps), d, e)
  {
    hide Apply, Enabled;
    assert (steps + [e])[..|steps|] == steps;
  }

  lemma {:induction false} ExecuteCons(s: Net, d: Discovery, first: Step, rest: seq<Step>)
    requires Enabled(s, first) && Legal(Apply(s, d, first), d, rest)
    ensures Legal(s, d, [first] + rest)
    ensures Execute(s, d, [first] + rest) == Execute(Apply(s, d, first), d, rest)
  {
    var all := [first] + rest;
    if rest == [] {
      assert all[..|all| - 1] == [];
      assert Execute(s, d, []) == s;
    } else {
      ExecuteCons(s, d, first, rest[..|rest| - 1]);
      assert all[..|all| - 1] == [first] + rest[..|rest| - 1];
    }
  }
}
