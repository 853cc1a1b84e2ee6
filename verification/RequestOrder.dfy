/**
 * The sequence numbers that RREQs spread: each request of an originator carries a newer one than the last, and a
 * node that hears them keeps the newest, in whatever order they come.
 */
module RequestOrder {
  import opened Words
  import opened Options
  import opened AodvNode
  import ReplyOrder

  // ----- what the originator sends -----

  /** The state after k requests for dst, one after the other. */
  function Requested(n: NodeState, dst: Addr, destinationOnly: bool, k: nat): NodeState {
    if k == 0 then n else SendRequest(Requested(n, dst, destinationOnly, k - 1), dst, destinationOnly).node
  }

  /** One request: it is broadcast, it names the originator and starts at hop count 0, and both counters go up. */
  lemma OneRequest(n: NodeState, dst: Addr, destinationOnly: bool)
    ensures var r := SendRequest(n, dst, destinationOnly);
      && |r.sends| == 1 && r.sends[0].Broadcast? && r.sends[0].msg.RREQ?
      && var q := r.sends[0].msg.rreq;
         && q.origin == n.addr && q.dst == dst && q.hop == 0 && q.destinationOnly == destinationOnly
         && SignedDiff(q.id, n.requestId) == 1 && SignedDiff(q.originSeqno, n.seqNo) == 1
         && r.node.addr == n.addr && r.node.requestId == q.id && r.node.seqNo == q.originSeqno
         && (n.addr, q.id) in r.node.seen
  {
  }

  /** A step of d on the circle of numbers. */
  lemma Apart(x: int, d: nat)
    requires d < TWO_31
    ensures SignedDiff((x + d) % TWO_32, x % TWO_32) == d
  {
  }

  lemma OneApart(a: u32, b: u32, x: int)
    requires SignedDiff(a, b) == 1 && b == x % TWO_32
    ensures a == (x + 1) % TWO_32
  {
  }

  /** The counters after k requests. */
  lemma {:induction false} CountersRise(n: NodeState, dst: Addr, destinationOnly: bool, k: nat)
    ensures var m := Requested(n, dst, destinationOnly, k);
      m.addr == n.addr && m.requestId == (n.requestId + k) % TWO_32 && m.seqNo == (n.seqNo + k) % TWO_32
  {
    hide SendRequest, SignedDiff;
    if k > 0 {
      CountersRise(n, dst, destinationOnly, k - 1);
      var before := Requested(n, dst, destinationOnly, k - 1);
      OneRequest(before, dst, destinationOnly);
      var after := SendRequest(before, dst, destinationOnly).node;
      OneApart(after.requestId, before.requestId, n.requestId + k - 1);
      OneApart(after.seqNo, before.seqNo, n.seqNo + k - 1);
    }
  }

  /** The k-th request, from 0. */
  function Request(n: NodeState, dst: Addr, destinationOnly: bool, k: nat): Rreq {
    SendRequest(Requested(n, dst, destinationOnly, k), dst, destinationOnly).sends[0].msg.rreq
  }

  lemma RequestNumbers(n: NodeState, dst: Addr, destinationOnly: bool, k: nat)
    ensures var q := Request(n, dst, destinationOnly, k);
      q.origin == n.addr && q.id == (n.requestId + k + 1) % TWO_32 && q.originSeqno == (n.seqNo + k + 1) % TWO_32
  {
    CountersRise(n, dst, destinationOnly, k + 1);
    OneRequest(Requested(n, dst, destinationOnly, k), dst, destinationOnly);
    CountersRise(n, dst, destinationOnly, k);
    hide SendRequest;
  }

  /** Of any two requests less than half the circle apart the later one is newer, and their IDs differ. */
  lemma LaterIsNewer(n: NodeState, dst: Addr, destinationOnly: bool, i: nat, j: nat)
    requires i < j < i + TWO_31
    ensures var early, late := Request(n, dst, destinationOnly, i), Request(n, dst, destinationOnly, j);
      && SignedDiff(late.originSeqno, early.originSeqno) == j - i
      && SignedDiff(late.id, early.id) == j - i && early.origin == late.origin == n.addr
  {
    hide Request, SignedDiff;
    RequestNumbers(n, dst, destinationOnly, i);
    RequestNumbers(n, dst, destinationOnly, j);
    Apart(n.requestId + i + 1, j - i);
    Apart(n.seqNo + i + 1, j - i);
  }

  // ----- what a node stores -----

  /** An accepted RREQ: the whole reverse entry, from the entry before and the request alone. */
  lemma ReverseEntry(n: NodeState, q: Rreq, src: Addr)
    requires (q.origin, q.id) !in n.seen
    ensures var r := RecvRequest(n, q, src);
      && q.origin in r.node.table
      && (var e := r.node.table[q.origin];
         && e.validSeqNo && e.nextHop == src && e.hop == (q.hop + 1) % TWO_8
         && (q.origin !in n.table ==> e.flag == VALID)
         && (q.origin in n.table ==> e.flag == n.table[q.origin].flag)
         && (q.origin !in n.table || !n.table[q.origin].validSeqNo ==> e.seqNo == q.originSeqno)
         && (q.origin in n.table && n.table[q.origin].validSeqNo ==>
               var was := n.table[q.origin].seqNo;
               && (SignedDiff(q.originSeqno, was) > 0 ==> e.seqNo == q.originSeqno)
               && (SignedDiff(q.originSeqno, was) <= 0 ==> e.seqNo == was)))
      && forall k :: k != q.origin ==> Lookup(r.node.table, k) == Lookup(n.table, k)
  {
  }

  /** Hearing the originator itself overwrites its entry, unless that is a one-hop entry with a valid number. */
  predicate Forgets(n: NodeState, q: Rreq, sender: Addr) {
    && sender == q.origin && q.origin in n.table
    && n.table[q.origin].validSeqNo && n.table[q.origin].hop != 1
  }

  function NumberOf(n: NodeState, orig: Addr): Option<u32> {
    if orig in n.table && n.table[orig].validSeqNo then Some(n.table[orig].seqNo) else None
  }

  /** Exactly when the number that a node stores for the originator does not go back with an accepted RREQ. */
  lemma NeverBackIff(n: NodeState, q: Rreq, sender: Addr)
    requires (q.origin, q.id) !in n.seen && NumberOf(n, q.origin).Some?
    ensures var m, was := RecvAodv(n, RREQ(q), sender).node, NumberOf(n, q.origin).value;
      && NumberOf(m, q.origin).Some?
      && (SignedDiff(NumberOf(m, q.origin).value, was) >= 0 <==>
            !Forgets(n, q, sender) || SignedDiff(q.originSeqno, was) >= 0)
  {
    ReverseEntry(UpdateRouteToNeighbor(n, sender), q, sender);
  }

  datatype Heard = Heard(rreq: Rreq, sender: Addr)

  function HandleAll(n: NodeState, hs: seq<Heard>): NodeState {
    if hs == [] then n
    else
      var m := |hs| - 1;
      RecvAodv(HandleAll(n, hs[..m]), RREQ(hs[m].rreq), hs[m].sender).node
  }

  /** The i-th RREQ is not a duplicate when it comes. */
  predicate AcceptedAt(n: NodeState, hs: seq<Heard>, i: nat)
    requires i < |hs|
  {
    (hs[i].rreq.origin, hs[i].rreq.id) !in HandleAll(n, hs[..i]).seen
  }

  /** RREQs of one originator with numbers in one window, none of which makes the node forget its number. */
  ghost predicate Hears(n: NodeState, orig: Addr, base: u32, hs: seq<Heard>) {
    && (NumberOf(n, orig).Some? ==> ReplyOrder.InWindow(base, NumberOf(n, orig).value))
    && forall i :: 0 <= i < |hs| ==>
         && hs[i].rreq.origin == orig && ReplyOrder.InWindow(base, hs[i].rreq.originSeqno)
         && !Forgets(HandleAll(n, hs[..i]), hs[i].rreq, hs[i].sender)
  }

  /** The number after one more RREQ: unchanged if it is a duplicate, the newer of the two otherwise. */
  lemma OneHeard(n: NodeState, q: Rreq, sender: Addr, base: u32)
    requires !Forgets(n, q, sender) && ReplyOrder.InWindow(base, q.originSeqno)
    requires NumberOf(n, q.origin).Some? ==> ReplyOrder.InWindow(base, NumberOf(n, q.origin).value)
    ensures var before, after := NumberOf(n, q.origin), NumberOf(RecvAodv(n, RREQ(q), sender).node, q.origin);
      if (q.origin, q.id) in n.seen then after == before
      else
        && after.Some? && (after == before || after.value == q.originSeqno)
        && ReplyOrder.Offset(base, after.value) >= ReplyOrder.Offset(base, q.originSeqno)
        && (before.Some? ==> ReplyOrder.Offset(base, after.value) >= ReplyOrder.Offset(base, before.value))
  {
    if (q.origin, q.id) !in n.seen {
      ReverseEntry(UpdateRouteToNeighbor(n, sender), q, sender);
      if NumberOf(n, q.origin).Some? {
        ReplyOrder.WindowOrder(base, q.originSeqno, NumberOf(n, q.origin).value);
      }
    }
  }

  /** The number stored at last is known at the start or accepted, and none known or accepted is newer. */
  ghost predicate Newest(n: NodeState, orig: Addr, base: u32, hs: seq<Heard>, last: Option<u32>) {
    && (|| last == NumberOf(n, orig)
        || exists i :: 0 <= i < |hs| && AcceptedAt(n, hs, i) && last == Some(hs[i].rreq.originSeqno))
    && (NumberOf(n, orig).Some? ==>
          last.Some? && ReplyOrder.Offset(base, last.value) >= ReplyOrder.Offset(base, NumberOf(n, orig).value))
    && forall i :: 0 <= i < |hs| && AcceptedAt(n, hs, i) ==>
         last.Some? && ReplyOrder.Offset(base, last.value) >= ReplyOrder.Offset(base, hs[i].rreq.originSeqno)
  }

  /** Whatever the order of the RREQs, the node ends up with the newest number of the originator. */
  lemma {:induction false} NewestStored(n: NodeState, orig: Addr, base: u32, hs: seq<Heard>)
    requires Hears(n, orig, base, hs)
    ensures Newest(n, orig, base, hs, NumberOf(HandleAll(n, hs), orig))
    ensures NumberOf(HandleAll(n, hs), orig).Some? ==>
      ReplyOrder.InWindow(base, NumberOf(HandleAll(n, hs), orig).value)
  {
    hide RecvAodv, Forgets, NumberOf;
    if hs != [] {
      var m := |hs| - 1;
      var before := HandleAll(n, hs[..m]);
      ShorterHears(n, orig, base, hs, m);
      NewestStored(n, orig, base, hs[..m]);
      OneHeard(before, hs[m].rreq, hs[m].sender, base);
      NewestNext(n, orig, base, hs, NumberOf(before, orig), NumberOf(HandleAll(n, hs), orig));
    }
  }

  lemma ShorterHears(n: NodeState, orig: Addr, base: u32, hs: seq<Heard>, m: nat)
    requires Hears(n, orig, base, hs) && m <= |hs|
    ensures Hears(n, orig, base, hs[..m])
    ensures forall i :: 0 <= i < m ==> hs[..m][..i] == hs[..i]
  {
    hide Forgets, RecvAodv;
    assert forall i :: 0 <= i < m ==> hs[..m][..i] == hs[..i];
  }

  lemma NewestNext(n: NodeState, orig: Addr, base: u32, hs: seq<Heard>, before: Option<u32>, after: Option<u32>)
    requires hs != [] && Newest(n, orig, base, hs[..|hs| - 1], before)
    requires if !AcceptedAt(n, hs, |hs| - 1) then after == before
      else
        && after.Some? && (after == before || after.value == hs[|hs| - 1].rreq.originSeqno)
        && ReplyOrder.Offset(base, after.value) >= ReplyOrder.Offset(base, hs[|hs| - 1].rreq.originSeqno)
        && (before.Some? ==> ReplyOrder.Offset(base, after.value) >= ReplyOrder.Offset(base, before.value))
    ensures Newest(n, orig, base, hs, after)
  {
    hide HandleAll, NumberOf;
    var m := |hs| - 1;
    assert forall i :: 0 <= i < m ==> hs[..m][..i] == hs[..i];
    assert forall i :: 0 <= i < m ==> (AcceptedAt(n, hs[..m], i) <==> AcceptedAt(n, hs, i));
  }
}
