/**
 * What one received packet does to one node, outcome by outcome: when a request is dropped, answered or relayed,
 * when a reply goes on, and what every handler leaves in the table.
 */
module AodvHandlers {
  import opened Words
  import opened Options
  import opened AodvNode

  /** All entries but the one for k are the same. */
  ghost predicate OthersStay(n: NodeState, m: NodeState, k: Addr) {
    && m.addr == n.addr && m.requestId == n.requestId
    && forall x :: x != k ==> Lookup(m.table, x) == Lookup(n.table, x)
  }

  // ----- requests -----

  /** A route to the destination of q that is at least as new as q asks for. */
  predicate Sound(n: NodeState, q: Rreq) {
    && q.dst in n.table && n.table[q.dst].validSeqNo
    && (q.unknownSeqno || SignedDiff(n.table[q.dst].seqNo, q.dstSeqno) >= 0)
  }

  /** The next hop towards the destination is the node that asks. */
  predicate LeadsBack(n: NodeState, q: Rreq, src: Addr) {
    q.dst in n.table && n.table[q.dst].nextHop == src
  }

  predicate MayAnswer(n: NodeState, q: Rreq, src: Addr) {
    Sound(n, q) && !LeadsBack(n, q, src) && n.table[q.dst].flag == VALID && !q.destinationOnly
  }

  /** The request as a relay passes it on: one hop further, and asking for the newer number if the relay has one. */
  ghost predicate PassedOn(n: NodeState, q: Rreq, q': Rreq) {
    && q'.hop == (q.hop + 1) % TWO_8 && q'.origin == q.origin && q'.originSeqno == q.originSeqno
    && q'.id == q.id && q'.dst == q.dst && q'.destinationOnly == q.destinationOnly
    && (Sound(n, q) ==> !q'.unknownSeqno && q'.dstSeqno == n.table[q.dst].seqNo)
    && (!Sound(n, q) ==> q'.unknownSeqno == q.unknownSeqno && q'.dstSeqno == q.dstSeqno)
  }

  /**
   * What becomes of a fresh request at a node that it is not for: it is dropped exactly if the node would send the
   * requester back to itself; it is answered exactly if the node may, with the number and the hop count of its
   * route, and an acknowledgement is asked for exactly if the destination is a neighbour; otherwise it is relayed.
   */
  lemma RequestOutcome(n: NodeState, q: Rreq, src: Addr)
    requires (q.origin, q.id) !in n.seen && q.dst != n.addr && q.dst != q.origin
    ensures var sends := RecvRequest(n, q, src).sends;
      && (sends == [] <==> LeadsBack(n, q, src))
      && (MayAnswer(n, q, src) ==>
            && |sends| == 1 && sends[0].Unicast? && sends[0].to == src && sends[0].msg.RREP?
            && var p := sends[0].msg.rrep;
               && p.dst == q.dst && p.origin == q.origin && p.dstSeqno == n.table[q.dst].seqNo
               && p.hop == n.table[q.dst].hop % TWO_8
               && (p.ackRequired <==> n.table[q.dst].hop == 1)
               && (q.unknownSeqno || SignedDiff(p.dstSeqno, q.dstSeqno) >= 0))
      && (!MayAnswer(n, q, src) && !LeadsBack(n, q, src) ==>
            |sends| == 1 && sends[0].Broadcast? && sends[0].msg.RREQ? && PassedOn(n, q, sends[0].msg.rreq))
      && RecvRequest(n, q, src).node.seqNo == n.seqNo
  {
  }

  /** A request seen before changes nothing and is answered by nothing. */
  lemma Ignored(n: NodeState, q: Rreq, src: Addr)
    ensures (q.origin, q.id) in n.seen <==> RecvRequest(n, q, src) == Reaction(n, [])
  {
    if (q.origin, q.id) !in n.seen {
      assert (q.origin, q.id) in RecvRequest(n, q, src).node.seen;
    }
  }

  /** Asking for a destination leaves an entry in search with what was known, and asks for just that. */
  lemma SearchEntry(n: NodeState, dst: Addr, destinationOnly: bool)
    ensures var r := SendRequest(n, dst, destinationOnly);
      && dst in r.node.table && r.node.table[dst].flag == IN_SEARCH
      && (forall k :: k != dst ==> Lookup(r.node.table, k) == Lookup(n.table, k))
      && (dst in n.table ==> r.node.table[dst].(flag := n.table[dst].flag) == n.table[dst])
      && (dst !in n.table ==> r.node.table[dst] == Route(false, 0, 0, UNSET, IN_SEARCH))
      && |r.sends| == 1 && r.sends[0].Broadcast? && r.sends[0].msg.RREQ?
      && var q := r.sends[0].msg.rreq;
         && (q.unknownSeqno <==> dst !in n.table || !n.table[dst].validSeqNo)
         && (q.dstSeqno == if dst in n.table && n.table[dst].validSeqNo then n.table[dst].seqNo else 0)
  {
  }

  // ----- replies -----

  /**
   * A RREP for another originator goes on exactly if the node has an entry for that originator that is not in
   * search: to its next hop, one hop further and without a request for an acknowledgement; and whoever asked for
   * one gets it.
   */
  lemma ReplyOutcome(n: NodeState, p: Rrep, sender: Addr)
    requires p.dst != p.origin
    ensures var sends := RecvReply(n, p, sender).sends;
      var goesOn := n.addr != p.origin && p.origin in n.table && n.table[p.origin].flag != IN_SEARCH;
      && ((exists i :: 0 <= i < |sends| && sends[i].msg.RREP?) <==> goesOn)
      && (p.ackRequired <==> Unicast(sender, RREP_ACK) in sends)
      && |sends| == (if goesOn then 1 else 0) + (if p.ackRequired then 1 else 0)
      && (goesOn ==>
            var last := sends[|sends| - 1];
            && last.Unicast? && last.to == n.table[p.origin].nextHop && last.msg.RREP?
            && last.msg.rrep == Rrep((p.hop + 1) % TWO_8, p.dst, p.dstSeqno, p.origin, false))
      && OthersStay(n, RecvReply(n, p, sender).node, p.dst) && RecvReply(n, p, sender).node.seqNo == n.seqNo
  {
    var sends := RecvReply(n, p, sender).sends;
    if n.addr != p.origin && p.origin in n.table && n.table[p.origin].flag != IN_SEARCH {
      assert sends[|sends| - 1].msg.RREP?;
    }
    assert p.ackRequired ==> sends[0] == Unicast(sender, RREP_ACK);
  }

  /** A hello makes its sender's number the stored one, older or not, and nothing is sent. */
  lemma HelloOutcome(n: NodeState, p: Rrep, sender: Addr)
    requires p.dst == p.origin
    ensures var r := RecvReply(n, p, sender);
      && r.sends == [] && OthersStay(n, r.node, p.dst) && r.node.seqNo == n.seqNo && r.node.seen == n.seen
      && p.dst in r.node.table
      && var e := r.node.table[p.dst];
         && e.validSeqNo && e.seqNo == p.dstSeqno && e.flag == VALID
         && (p.dst !in n.table ==> e.hop == 1 && e.nextHop == p.dst)
         && (p.dst in n.table ==> e.hop == n.table[p.dst].hop && e.nextHop == n.table[p.dst].nextHop)
  {
  }

  // ----- neighbours -----

  /** Hearing anything from a node leaves a one-hop entry for it; a sound one keeps its number. */
  lemma NeighborEntry(n: NodeState, sender: Addr)
    ensures var m := UpdateRouteToNeighbor(n, sender);
      && OthersStay(n, m, sender) && m.seqNo == n.seqNo && m.seen == n.seen
      && sender in m.table && m.table[sender].hop == 1
      && (sender in n.table && n.table[sender].validSeqNo && n.table[sender].hop == 1 ==>
            m.table[sender] == n.table[sender])
      && (!(sender in n.table && n.table[sender].validSeqNo && n.table[sender].hop == 1) ==>
            m.table[sender] == Route(false, 0, 1, sender, VALID))
  {
  }

  /** An acknowledgement makes the entry of its sender VALID and changes nothing else. */
  lemma AckOutcome(n: NodeState, sender: Addr)
    ensures var r := RecvAodv(n, RREP_ACK, sender);
      && r.sends == [] && OthersStay(n, r.node, sender) && r.node.seqNo == n.seqNo && r.node.seen == n.seen
      && sender in r.node.table && r.node.table[sender].flag == VALID && r.node.table[sender].hop == 1
      && (sender in n.table && n.table[sender].validSeqNo && n.table[sender].hop == 1 ==>
            r.node.table[sender] == n.table[sender].(flag := VALID))
  {
  }

  /** An acknowledgement from nobody known would change nothing. */
  lemma AckUnknown(n: NodeState, neighbor: Addr)
    requires neighbor !in n.table
    ensures RecvReplyAck(n, neighbor) == n
  {
  }
}
