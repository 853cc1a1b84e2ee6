/**
 * One AODV node as a value: the handlers of aodv-routing-protocol.cc that a single route discovery
 * runs through. A handler takes the state of a node and yields the new state and what was sent.
 */
module AodvNode {
  import opened Words
  import opened Options

  datatype Flag = VALID | INVALID | IN_SEARCH

  /** The part of a routing table entry that decides where packets go. */
  datatype Route = Route(validSeqNo: bool, seqNo: u32, hop: nat, nextHop: Addr, flag: Flag)

  datatype Rreq = Rreq(hop: byte, id: u32, dst: Addr, unknownSeqno: bool, dstSeqno: u32,
                       origin: Addr, originSeqno: u32, destinationOnly: bool)

  datatype Rrep = Rrep(hop: byte, dst: Addr, dstSeqno: u32, origin: Addr, ackRequired: bool)

  datatype Message = RREQ(rreq: Rreq) | RREP(rrep: Rrep) | RREP_ACK

  datatype Send = Broadcast(msg: Message) | Unicast(to: Addr, msg: Message)

  datatype NodeState = NodeState(addr: Addr, table: map<Addr, Route>, seen: set<(Addr, u32)>,
                                 requestId: u32, seqNo: u32)

  datatype Reaction = Reaction(node: NodeState, sends: seq<Send>)

  /** The address a default-constructed entry carries as next hop. */
  const UNSET: Addr := 0x6666_6666

  function SendRequest(n: NodeState, dst: Addr, destinationOnly: bool): Reaction {
    var known := dst in n.table;
    var rt := if known then n.table[dst].(flag := IN_SEARCH) else Route(false, 0, 0, UNSET, IN_SEARCH);
    var seqNo, id := Inc32(n.seqNo), Inc32(n.requestId);
    var q := Rreq(0, id, dst, !rt.validSeqNo, if rt.validSeqNo then rt.seqNo else 0, n.addr, seqNo, destinationOnly);
    Reaction(NodeState(n.addr, n.table[dst := rt], n.seen + {(n.addr, id)}, id, seqNo), [Broadcast(RREQ(q))])
  }

  /** A direct one-hop route to whoever was just heard, unless a sound one is there already. */
  function UpdateRouteToNeighbor(n: NodeState, sender: Addr): NodeState {
    if sender in n.table && n.table[sender].validSeqNo && n.table[sender].hop == 1 then n
    else n.(table := n.table[sender := Route(false, 0, 1, sender, VALID)])
  }

  /** The reverse route an accepted RREQ leaves. */
  function ReverseRoute(prior: Option<Route>, q: Rreq, hop: byte, src: Addr): Route {
    match prior
    case None => Route(true, q.originSeqno, hop, src, VALID)
    case Some(e) =>
      var keep := e.validSeqNo && SignedDiff(q.originSeqno, e.seqNo) <= 0;
      Route(true, if keep then e.seqNo else q.originSeqno, hop, src, e.flag)
  }

  function Lookup(table: map<Addr, Route>, dst: Addr): Option<Route> {
    if dst in table then Some(table[dst]) else None
  }

  function RecvRequest(n: NodeState, q: Rreq, src: Addr): Reaction {
    if (q.origin, q.id) in n.seen then Reaction(n, [])
    else
      var hop := Inc8(q.hop);
      var toOrigin := ReverseRoute(Lookup(n.table, q.origin), q, hop, src);
      var n1 := n.(seen := n.seen + {(q.origin, q.id)}, table := n.table[q.origin := toOrigin]);
      var q1 := q.(hop := hop);
      if q.dst == n.addr then SendReply(n1, q1, toOrigin)
      else match Lookup(n1.table, q.dst)
        case None => Reaction(n1, [Broadcast(RREQ(q1))])
        case Some(toDst) =>
          if toDst.nextHop == src then Reaction(n1, [])
          else if (q.unknownSeqno || SignedDiff(toDst.seqNo, q.dstSeqno) >= 0) && toDst.validSeqNo then
            if !q.destinationOnly && toDst.flag == VALID then ReplyByIntermediate(n1, q, toDst, toOrigin)
            else Reaction(n1, [Broadcast(RREQ(q1.(dstSeqno := toDst.seqNo, unknownSeqno := false)))])
          else Reaction(n1, [Broadcast(RREQ(q1))])
  }

  function SendReply(n: NodeState, q: Rreq, toOrigin: Route): Reaction {
    var seqNo := if !q.unknownSeqno && q.dstSeqno == Inc32(n.seqNo) then Inc32(n.seqNo) else n.seqNo;
    Reaction(n.(seqNo := seqNo), [Unicast(toOrigin.nextHop, RREP(Rrep(0, q.dst, seqNo, q.origin, false)))])
  }

  function ReplyByIntermediate(n: NodeState, q: Rreq, toDst: Route, toOrigin: Route): Reaction {
    var p := Rrep(toDst.hop % TWO_8, q.dst, toDst.seqNo, q.origin, toDst.hop == 1);
    Reaction(n, [Unicast(toOrigin.nextHop, RREP(p))])
  }

  /** When a RREP replaces the entry for its destination. */
  predicate ReplyReplaces(e: Route, offer: Route) {
    || !e.validSeqNo
    || SignedDiff(offer.seqNo, e.seqNo) > 0
    || (offer.seqNo == e.seqNo && e.flag != VALID)
    || (offer.seqNo == e.seqNo && offer.hop < e.hop)
  }

  function ReplyRule(e: Route, offer: Route): Route {
    if ReplyReplaces(e, offer) then offer else e
  }

  function RecvReply(n: NodeState, p: Rrep, sender: Addr): Reaction {
    var hop := Inc8(p.hop);
    if p.dst == p.origin then Reaction(ProcessHello(n, p), [])
    else
      var offer := Route(true, p.dstSeqno, hop, sender, VALID);
      var prior := Lookup(n.table, p.dst);
      var toDst := if prior.Some? then ReplyRule(prior.value, offer) else offer;
      var ack := if p.ackRequired then [Unicast(sender, RREP_ACK)] else [];
      if p.origin == n.addr then
        var settled := if prior.Some? && prior.value.flag == IN_SEARCH then offer else toDst;
        Reaction(n.(table := n.table[p.dst := settled]), ack)
      else
        var n1 := n.(table := n.table[p.dst := toDst]);
        match Lookup(n1.table, p.origin)
        case None => Reaction(n1, ack)
        case Some(toOrigin) =>
          if toOrigin.flag == IN_SEARCH then Reaction(n1, ack)
          else Reaction(n1, ack + [Unicast(toOrigin.nextHop, RREP(p.(hop := hop, ackRequired := false)))])
  }

  function ProcessHello(n: NodeState, p: Rrep): NodeState {
    var e := match Lookup(n.table, p.dst)
      case None => Route(true, p.dstSeqno, 1, p.dst, VALID)
      case Some(e) => e.(seqNo := p.dstSeqno, validSeqNo := true, flag := VALID);
    n.(table := n.table[p.dst := e])
  }

  function RecvReplyAck(n: NodeState, neighbor: Addr): NodeState {
    if neighbor in n.table then n.(table := n.table[neighbor := n.table[neighbor].(flag := VALID)]) else n
  }

  /** Everything one received control packet does to a node. */
  function RecvAodv(n: NodeState, msg: Message, sender: Addr): Reaction {
    var n1 := UpdateRouteToNeighbor(n, sender);
    match msg
    case RREQ(q) => RecvRequest(n1, q, sender)
    case RREP(p) => RecvReply(n1, p, sender)
    case RREP_ACK => Reaction(RecvReplyAck(n1, sender), [])
  }
}
