/**
 * The same handlers as a node object that updates its routing table, its RREQ ID cache and its counters
 * step by step and hands packets to its sockets. Every method is proved to do what AodvNode says.
 */
module AodvRouter {
  import opened Words
  import opened Options
  import opened AodvNode

  class RoutingProtocol {
    const self: Addr
    var routingTable: map<Addr, Route>
    var rreqIdCache: set<(Addr, u32)>
    var requestId: u32
    var seqNo: u32
    /** What has been handed to the sockets, oldest first. */
    var sent: seq<Send>

    constructor (self: Addr)
      ensures this.self == self && State() == NodeState(self, map[], {}, 0, 0) && sent == []
    {
      this.self := self;
      routingTable, rreqIdCache, requestId, seqNo, sent := map[], {}, 0, 0, [];
    }

    function State(): NodeState
      reads this
    {
      NodeState(self, routingTable, rreqIdCache, requestId, seqNo)
    }

    /** Look an entry up; the caller gets a copy. */
    method LookupRoute(dst: Addr) returns (found: bool, rt: Route)
      ensures found <==> dst in routingTable
      ensures rt == if found then routingTable[dst] else Route(false, 0, 0, UNSET, VALID)
    {
      found := dst in routingTable;
      rt := if found then routingTable[dst] else Route(false, 0, 0, UNSET, VALID);
    }

    /** Insert an entry unless its key is taken. */
    method AddRoute(dst: Addr, rt: Route) returns (inserted: bool)
      modifies this`routingTable
      ensures inserted <==> dst !in old(routingTable)
      ensures routingTable == if inserted then old(routingTable)[dst := rt] else old(routingTable)
    {
      inserted := dst !in routingTable;
      if inserted {
        routingTable := routingTable[dst := rt];
      }
    }

    /** Overwrite an entry, provided its key is there. */
    method Update(dst: Addr, rt: Route) returns (updated: bool)
      modifies this`routingTable
      ensures updated <==> dst in old(routingTable)
      ensures routingTable == if updated then old(routingTable)[dst := rt] else old(routingTable)
    {
      updated := dst in routingTable;
      if updated {
        routingTable := routingTable[dst := rt];
      }
    }

    method IsDuplicate(addr: Addr, id: u32) returns (duplicate: bool)
      modifies this`rreqIdCache
      ensures duplicate <==> (addr, id) in old(rreqIdCache)
      ensures rreqIdCache == old(rreqIdCache) + {(addr, id)}
    {
      duplicate := (addr, id) in rreqIdCache;
      rreqIdCache := rreqIdCache + {(addr, id)};
    }

    method SendTo(send: Send)
      modifies this`sent
      ensures sent == old(sent) + [send]
    {
      sent := sent + [send];
    }

    method SendRequest(dst: Addr, destinationOnly: bool)
      modifies this
      ensures var r := AodvNode.SendRequest(old(State()), dst, destinationOnly);
        State() == r.node && sent == old(sent) + r.sends
    {
      var q := Rreq(0, 0, dst, false, 0, 0, 0, false);
      var found, rt := LookupRoute(dst);
      if found {
        q := if rt.validSeqNo then q.(dstSeqno := rt.seqNo) else q.(unknownSeqno := true);
        rt := rt.(flag := IN_SEARCH);
        var _ := Update(dst, rt);
      } else {
        q := q.(unknownSeqno := true);
        var newEntry := Route(false, 0, 0, UNSET, VALID).(flag := IN_SEARCH);
        var _ := AddRoute(dst, newEntry);
      }
      if destinationOnly {
        q := q.(destinationOnly := true);
      }
      seqNo := Inc32(seqNo);
      q := q.(originSeqno := seqNo);
      requestId := Inc32(requestId);
      q := q.(id := requestId, hop := 0, origin := self);
      var _ := IsDuplicate(self, requestId);
      SendTo(Broadcast(RREQ(q)));
    }

    method UpdateRouteToNeighbor(sender: Addr)
      modifies this`routingTable
      ensures State() == AodvNode.UpdateRouteToNeighbor(old(State()), sender)
    {
      var found, toNeighbor := LookupRoute(sender);
      var newEntry := Route(false, 0, 1, sender, VALID);
      if !found {
        var _ := AddRoute(sender, newEntry);
      } else if !(toNeighbor.validSeqNo && toNeighbor.hop == 1) {
        var _ := Update(sender, newEntry);
      }
    }

    /** The table update of RecvRequest: the route back to the originator. */
    method SetReverseRoute(q: Rreq, hop: byte, src: Addr)
      modifies this`routingTable
      ensures var prior := Lookup(old(routingTable), q.origin);
        routingTable == old(routingTable)[q.origin := ReverseRoute(prior, q, hop, src)]
    {
      var found, toOrigin := LookupRoute(q.origin);
      if !found {
        toOrigin := Route(true, q.originSeqno, hop, src, VALID);
        var _ := AddRoute(q.origin, toOrigin);
      } else {
        if toOrigin.validSeqNo {
          if SignedDiff(q.originSeqno, toOrigin.seqNo) > 0 {
            toOrigin := toOrigin.(seqNo := q.originSeqno);
          }
        } else {
          toOrigin := toOrigin.(seqNo := q.originSeqno);
        }
        toOrigin := toOrigin.(validSeqNo := true, nextHop := src, hop := hop);
        var _ := Update(q.origin, toOrigin);
      }
    }

    method RecvRequest(rreq: Rreq, src: Addr)
      modifies this
      ensures var r := AodvNode.RecvRequest(old(State()), rreq, src);
        State() == r.node && sent == old(sent) + r.sends
    {
      var q := rreq;
      var duplicate := IsDuplicate(q.origin, q.id);
      if duplicate {
        assert rreqIdCache == old(rreqIdCache);
        return;
      }
      var hop := Inc8(q.hop);
      q := q.(hop := hop);
      SetReverseRoute(q, hop, src);
      if q.dst == self {
        var _, toOrigin := LookupRoute(q.origin);
        SendReply(q, toOrigin);
        return;
      }
      var found, toDst := LookupRoute(q.dst);
      if found {
        if toDst.nextHop == src {
          return;
        }
        if (q.unknownSeqno || SignedDiff(toDst.seqNo, q.dstSeqno) >= 0) && toDst.validSeqNo {
          if !q.destinationOnly && toDst.flag == VALID {
            var _, toOrigin := LookupRoute(q.origin);
            SendReplyByIntermediateNode(q.dst, toDst, q.origin, toOrigin);
            return;
          }
          q := q.(dstSeqno := toDst.seqNo, unknownSeqno := false);
        }
      }
      SendTo(Broadcast(RREQ(q)));
    }

    method SendReply(rreq: Rreq, toOrigin: Route)
      modifies this`seqNo, this`sent
      ensures var r := AodvNode.SendReply(old(State()), rreq, toOrigin);
        State() == r.node && sent == old(sent) + r.sends
    {
      if !rreq.unknownSeqno && rreq.dstSeqno == Inc32(seqNo) {
        seqNo := Inc32(seqNo);
      }
      var p := Rrep(0, rreq.dst, seqNo, rreq.origin, false);
      SendTo(Unicast(toOrigin.nextHop, RREP(p)));
    }

    method SendReplyByIntermediateNode(dst: Addr, toDst: Route, origin: Addr, toOrigin: Route)
      modifies this`sent
      ensures sent == old(sent) + [Unicast(toOrigin.nextHop,
        RREP(Rrep(toDst.hop % TWO_8, dst, toDst.seqNo, origin, toDst.hop == 1)))]
    {
      var p := Rrep(toDst.hop % TWO_8, dst, toDst.seqNo, origin, false);
      if toDst.hop == 1 {
        p := p.(ackRequired := true);
      }
      SendTo(Unicast(toOrigin.nextHop, RREP(p)));
    }

    /** The table update of RecvReply; the caller gets a copy of the entry found, or a new one. */
    method SettleRoute(dst: Addr, newEntry: Route) returns (toDst: Route)
      modifies this`routingTable
      ensures var prior := Lookup(old(routingTable), dst);
        && routingTable
           == old(routingTable)[dst := if prior.Some? then ReplyRule(prior.value, newEntry) else newEntry]
        && toDst == if prior.Some? then prior.value else Route(false, 0, 0, UNSET, VALID)
    {
      var found;
      found, toDst := LookupRoute(dst);
      if found {
        if !toDst.validSeqNo {
          var _ := Update(dst, newEntry);
        } else if SignedDiff(newEntry.seqNo, toDst.seqNo) > 0 {
          var _ := Update(dst, newEntry);
        } else {
          if newEntry.seqNo == toDst.seqNo && toDst.flag != VALID {
            var _ := Update(dst, newEntry);
          } else if newEntry.seqNo == toDst.seqNo && newEntry.hop < toDst.hop {
            var _ := Update(dst, newEntry);
          }
        }
      } else {
        var _ := AddRoute(dst, newEntry);
      }
    }

    method RecvReply(rrep: Rrep, sender: Addr)
      modifies this
      ensures var r := AodvNode.RecvReply(old(State()), rrep, sender);
        State() == r.node && sent == old(sent) + r.sends
    {
      var p := rrep;
      var dst := p.dst;
      var hop := Inc8(p.hop);
      p := p.(hop := hop);
      if dst == p.origin {
        ProcessHello(p);
        return;
      }
      var newEntry := Route(true, p.dstSeqno, hop, sender, VALID);
      var toDst := SettleRoute(dst, newEntry);
      if p.ackRequired {
        SendTo(Unicast(sender, RREP_ACK));
        p := p.(ackRequired := false);
      }
      if p.origin == self {
        if toDst.flag == IN_SEARCH {
          var _ := Update(dst, newEntry);
        }
        return;
      }
      var known, toOrigin := LookupRoute(p.origin);
      if !known || toOrigin.flag == IN_SEARCH {
        return;
      }
      SendTo(Unicast(toOrigin.nextHop, RREP(p)));
    }

    method ProcessHello(rrep: Rrep)
      modifies this`routingTable
      ensures State() == AodvNode.ProcessHello(old(State()), rrep)
    {
      var found, toNeighbor := LookupRoute(rrep.dst);
      if !found {
        var _ := AddRoute(rrep.dst, Route(true, rrep.dstSeqno, 1, rrep.dst, VALID));
      } else {
        toNeighbor := toNeighbor.(seqNo := rrep.dstSeqno, validSeqNo := true, flag := VALID);
        var _ := Update(rrep.dst, toNeighbor);
      }
    }

    method RecvReplyAck(neighbor: Addr)
      modifies this`routingTable
      ensures State() == AodvNode.RecvReplyAck(old(State()), neighbor)
    {
      var found, rt := LookupRoute(neighbor);
      if found {
        var _ := Update(neighbor, rt.(flag := VALID));
      }
    }

    method RecvAodv(msg: Message, sender: Addr)
      modifies this
      ensures var r := AodvNode.RecvAodv(old(State()), msg, sender);
        State() == r.node && sent == old(sent) + r.sends
    {
      UpdateRouteToNeighbor(sender);
      match msg
      case RREQ(q) => RecvRequest(q, sender);
      case RREP(p) => RecvReply(p, sender);
      case RREP_ACK => RecvReplyAck(sender);
    }
  }
}
