/**
 * The number a discovery asks for: what the RREQ collects on its way to the destination, the number the
 * destination therefore answers with, and the tables in which its RREP leaves an exact path whatever the run.
 */
module AodvAsked {
  import opened Sequences
  import opened Words
  import opened Options
  import opened AodvNode
  import opened AodvFlood
  import opened AodvReply
  import opened AodvForward

  /** The destination's number that a RREQ asks for. */
  function Asked(q: Rreq): Option<u32> { if q.unknownSeqno then None else Some(q.dstSeqno) }

  function Known(n: NodeState, dst: Addr): Option<u32> {
    if dst in n.table && n.table[dst].validSeqNo then Some(n.table[dst].seqNo) else None
  }

  function KnownAt(nodes: map<Addr, NodeState>, d: Discovery, x: Addr): Option<u32> {
    if x in nodes then Known(nodes[x], d.dst) else None
  }

  /** What a relay asks for: the number it knows, unless that is older than the one asked for. */
  function Raise(asked: Option<u32>, known: Option<u32>): Option<u32> {
    if known.Some? && (asked.None? || SignedDiff(known.value, asked.value) >= 0) then known else asked
  }

  /** What the destination answers with: its own number, or the next one if just that is asked for. */
  function AnswerTo(asked: Option<u32>, own: u32): u32 { if asked == Some(Inc32(own)) then Inc32(own) else own }

  // ----- what one handler call does -----

  lemma RelayAsks(n: NodeState, q: Rreq, sender: Addr)
    requires (q.origin, q.id) !in n.seen && q.dst != n.addr && q.dst != q.origin && sender != q.dst
    ensures var r := RecvAodv(n, RREQ(q), sender);
      && r.node.seqNo == n.seqNo
      && forall i :: 0 <= i < |r.sends| && r.sends[i].msg.RREQ? ==>
           Asked(r.sends[i].msg.rreq) == Raise(Asked(q), Known(n, q.dst))
  {
  }

  lemma DestinationAsked(n: NodeState, q: Rreq, sender: Addr)
    requires (q.origin, q.id) !in n.seen && q.dst == n.addr
    ensures RecvAodv(n, RREQ(q), sender).node.seqNo == AnswerTo(Asked(q), n.seqNo)
  {
  }

  lemma LaunchAsks(n: NodeState, dst: Addr, destinationOnly: bool)
    ensures var r := SendRequest(n, dst, destinationOnly);
      && r.sends[0].msg.RREQ? && Asked(r.sends[0].msg.rreq) == Known(n, dst)
  {
  }

  // ----- the invariant -----

  /** What p asks for: the originator what it knew at the start, any other node what is recorded. */
  function AskOf(start: map<Addr, NodeState>, asks: map<Addr, Option<u32>>, d: Discovery, p: Addr): Option<u32> {
    if p == d.orig then KnownAt(start, d, p)
    else if p in asks then asks[p]
    else None
  }

  /** A node that accepted asks for what its parent asks for, raised by its own entry of the start. */
  ghost predicate AskAt(start: map<Addr, NodeState>, joins: map<Addr, Join>, asks: map<Addr, Option<u32>>,
                        d: Discovery, y: Addr)
    requires y in joins
  {
    && y in start && y in asks
    && var above := AskOf(start, asks, d, joins[y].parent);
       asks[y] == if y == d.dst then above else Raise(above, Known(start[y], d.dst))
  }

  ghost predicate Asks(start: map<Addr, NodeState>, joins: map<Addr, Join>, asks: map<Addr, Option<u32>>,
                       d: Discovery)
  {
    asks.Keys == joins.Keys && forall y :: y in joins ==> AskAt(start, joins, asks, d, y)
  }

  ghost predicate Carried(start: map<Addr, NodeState>, flight: multiset<Packet>, asks: map<Addr, Option<u32>>,
                          d: Discovery)
  {
    forall pk :: pk in flight && pk.msg.RREQ? ==> Asked(pk.msg.rreq) == AskOf(start, asks, d, pk.from)
  }

  ghost predicate Answered(start: map<Addr, NodeState>, nodes: map<Addr, NodeState>, asks: map<Addr, Option<u32>>,
                           dst: Addr)
  {
    && dst in start && dst in nodes
    && nodes[dst].seqNo == if dst in asks then AnswerTo(asks[dst], start[dst].seqNo) else start[dst].seqNo
  }

  ghost predicate AskInv(start: map<Addr, NodeState>, s: Net, d: Discovery, asks: map<Addr, Option<u32>>) {
    && Fresh(start, s.nodes, s.joins, d) && Asks(start, s.joins, asks, d)
    && Carried(start, s.flight, asks, d) && Answered(start, s.nodes, asks, d.dst)
  }

  // ----- every step keeps the invariant -----

  lemma AsksGrow(start: map<Addr, NodeState>, joins: map<Addr, Join>, asks: map<Addr, Option<u32>>, d: Discovery,
                 y: Addr, j: Join, a: Option<u32>)
    requires Asks(start, joins, asks, d) && TreeShape(joins, d.orig) && y !in joins && y in start
    requires j.parent == d.orig || j.parent in joins
    requires var above := AskOf(start, asks, d, j.parent);
      a == if y == d.dst then above else Raise(above, Known(start[y], d.dst))
    ensures Asks(start, joins[y := j], asks[y := a], d)
  {
    var more, asks' := joins[y := j], asks[y := a];
    forall x | x in more ensures AskAt(start, more, asks', d, x) {
      if x != y {
        assert AskAt(start, joins, asks, d, x) && Below(joins, d.orig, joins[x]);
      }
    }
  }

  lemma CarriedAfter(start: map<Addr, NodeState>, flight: multiset<Packet>, asks: map<Addr, Option<u32>>,
                     d: Discovery, pk: Packet, sent: multiset<Packet>, asks': map<Addr, Option<u32>>)
    requires Carried(start, flight, asks, d)
    requires forall o :: o in flight && o.msg.RREQ? ==>
      AskOf(start, asks', d, o.from) == AskOf(start, asks, d, o.from)
    requires forall o :: o in sent && o.msg.RREQ? ==> Asked(o.msg.rreq) == AskOf(start, asks', d, o.from)
    ensures Carried(start, flight - multiset{pk} + sent, asks', d)
  {
    forall o | o in flight - multiset{pk} + sent && o.msg.RREQ?
      ensures Asked(o.msg.rreq) == AskOf(start, asks', d, o.from)
    {
      assert o in sent || o in flight;
    }
  }

  /** Whoever sends a request is the originator or has accepted, so a new acceptance changes nothing for it. */
  lemma SendersStay(start: map<Addr, NodeState>, s: Net, d: Discovery, asks: map<Addr, Option<u32>>, y: Addr,
                    a: Option<u32>)
    requires Inv(s, d) && y !in s.joins
    ensures forall o :: o in s.flight && o.msg.RREQ? ==>
      AskOf(start, asks[y := a], d, o.from) == AskOf(start, asks, d, o.from)
  {
    forall o | o in s.flight && o.msg.RREQ?
      ensures AskOf(start, asks[y := a], d, o.from) == AskOf(start, asks, d, o.from)
    {
      assert PacketOk(s.nodes.Keys, s.joins, d, o);
    }
  }

  /** What the accepting node sends asks for the raised number; the destination has answered. */
  lemma AcceptanceAsks(start: map<Addr, NodeState>, s: Net, d: Discovery, pk: Packet, reach: set<Addr>,
                       above: Option<u32>, a: Option<u32>)
    requires ReplyInv(s, d) && Enabled(s, Deliver(pk, reach)) && pk.msg.RREQ? && Asked(pk.msg.rreq) == above
    requires (d.orig, d.id) !in s.nodes[pk.to].seen && Fresh(start, s.nodes, s.joins, d) && pk.to in start
    requires a == if pk.to == d.dst then above else Raise(above, Known(start[pk.to], d.dst))
    ensures var r := RecvAodv(s.nodes[pk.to], pk.msg, pk.from);
      && r.node.seqNo == (if pk.to == d.dst then AnswerTo(a, s.nodes[pk.to].seqNo) else s.nodes[pk.to].seqNo)
      && forall o :: o in Post(pk.to, r.sends, reach, pk.to) && o.msg.RREQ? ==>
           o.from == pk.to && Asked(o.msg.rreq) == a
  {
    hide RecvAodv, Post, Answers;
    SeenFacts(s, d, pk);
    RequestFacts(s, d, pk);
    hide ReplyInv;
    var n := s.nodes[pk.to];
    var r := RecvAodv(n, pk.msg, pk.from);
    if pk.to == d.dst {
      DestinationAsked(n, pk.msg.rreq, pk.from);
      AnswerAt(n, pk.msg.rreq, pk.from);
      PostedOne(pk.to, pk.from, r.sends[0].msg, reach, pk.to);
    } else {
      RelayAsks(n, pk.msg.rreq, pk.from);
      forall o | o in Post(pk.to, r.sends, reach, pk.to) && o.msg.RREQ?
        ensures o.from == pk.to && Asked(o.msg.rreq) == a
      {
        Posted(pk.to, r.sends, reach, pk.to, o);
      }
    }
  }

  lemma AskAccepted(start: map<Addr, NodeState>, s: Net, d: Discovery, asks: map<Addr, Option<u32>>, pk: Packet,
                    reach: set<Addr>)
      returns (asks': map<Addr, Option<u32>>)
    requires ReplyInv(s, d) && AskInv(start, s, d, asks) && Enabled(s, Deliver(pk, reach)) && pk.msg.RREQ?
    requires (d.orig, d.id) !in s.nodes[pk.to].seen
    ensures AskInv(start, Receive(s, d, pk, reach), d, asks')
  {
    hide RecvAodv, Receive, Post, Answers, Raise, AnswerTo, ReplyInv, Inv, Fresh, Carried, Asks, AskOf;
    var y := pk.to;
    InvOf(s, d);
    var j := AcceptedParts(s, d, pk, reach);
    SenderKnown(start, s, d, asks, pk);
    var above := AskOf(start, asks, d, pk.from);
    var a := if y == d.dst then above else Raise(above, Known(start[y], d.dst));
    asks' := asks[y := a];
    var r := RecvAodv(s.nodes[y], pk.msg, pk.from);
    AcceptanceAsks(start, s, d, pk, reach, above, a);
    AsksGrow(start, s.joins, asks, d, y, j, a);
    SendersStay(start, s, d, asks, y, a);
    AskOfNew(start, asks, d, y, a);
    CarriedAfter(start, s.flight, asks, d, pk, Post(y, r.sends, reach, y), asks');
    FreshAfter(start, s.nodes, s.joins, d, y, r.node, s.joins[y := j]);
    AnsweredAfter(start, s, d, asks, y, r.node, a);
  }

  lemma AskOfNew(start: map<Addr, NodeState>, asks: map<Addr, Option<u32>>, d: Discovery, y: Addr, a: Option<u32>)
    requires y != d.orig
    ensures AskOf(start, asks[y := a], d, y) == a
  {
  }

  lemma SenderKnown(start: map<Addr, NodeState>, s: Net, d: Discovery, asks: map<Addr, Option<u32>>, pk: Packet)
    requires Inv(s, d) && AskInv(start, s, d, asks) && pk in s.flight && pk.msg.RREQ? && pk.to in s.nodes
    ensures pk.from == d.orig || pk.from in s.joins
    ensures Asked(pk.msg.rreq) == AskOf(start, asks, d, pk.from) && pk.to in start && TreeShape(s.joins, d.orig)
  {
    assert PacketOk(s.nodes.Keys, s.joins, d, pk);
  }

  lemma AnsweredAfter(start: map<Addr, NodeState>, s: Net, d: Discovery, asks: map<Addr, Option<u32>>, y: Addr,
                      n: NodeState, a: Option<u32>)
    requires Answered(start, s.nodes, asks, d.dst) && Asks(start, s.joins, asks, d) && y !in s.joins && y in s.nodes
    requires n.seqNo == if y == d.dst then AnswerTo(a, s.nodes[y].seqNo) else s.nodes[y].seqNo
    ensures Answered(start, s.nodes[y := n], asks[y := a], d.dst)
  {
  }

  /** A step in which nobody accepts. */
  lemma AskOther(start: map<Addr, NodeState>, s: Net, d: Discovery, asks: map<Addr, Option<u32>>, pk: Packet,
                 reach: set<Addr>)
    requires ReplyInv(s, d) && AskInv(start, s, d, asks) && Enabled(s, Deliver(pk, reach))
    requires pk.msg.RREQ? ==> (d.orig, d.id) in s.nodes[pk.to].seen
    ensures AskInv(start, Receive(s, d, pk, reach), d, asks)
  {
    hide RecvAodv, Receive, Post, ReplyInv, Inv, Fresh, Carried, Asks, AskOf;
    var y, n := pk.to, s.nodes[pk.to];
    InvOf(s, d);
    OtherParts(s, d, pk, reach);
    var r := RecvAodv(n, pk.msg, pk.from);
    var sent := Post(y, r.sends, reach, Source(pk));
    if pk.msg.RREP? {
      NoRequests(s, d, pk, reach);
      ReplyFacts(s, d, pk);
    } else {
      OtherFacts(s, d, pk);
      OtherAtNode(n, pk.msg, pk.from, d.dst);
    }
    NumberStays(n, pk.msg, pk.from);
    CarriedAfter(start, s.flight, asks, d, pk, sent, asks);
    FreshAfter(start, s.nodes, s.joins, d, y, r.node, s.joins);
  }

  lemma AskStep(start: map<Addr, NodeState>, s: Net, d: Discovery, asks: map<Addr, Option<u32>>, step: Step)
      returns (asks': map<Addr, Option<u32>>)
    requires ReplyInv(s, d) && AskInv(start, s, d, asks) && Enabled(s, step)
    ensures AskInv(start, Apply(s, d, step), d, asks')
  {
    hide Receive, ReplyInv, Fresh, Asks, Answered;
    asks' := asks;
    match step
    case Lose(pk) =>
      CarriedAfter(start, s.flight, asks, d, pk, multiset{}, asks);
      assert s.flight - multiset{pk} + multiset{} == s.flight - multiset{pk};
    case Deliver(pk, reach) =>
      if pk.msg.RREQ? && (d.orig, d.id) !in s.nodes[pk.to].seen {
        asks' := AskAccepted(start, s, d, asks, pk, reach);
      } else {
        AskOther(start, s, d, asks, pk, reach);
      }
  }

  lemma AskLaunch(nodes: map<Addr, NodeState>, d: Discovery, destinationOnly: bool, reach: set<Addr>)
    requires Quiet(nodes, d) && reach <= nodes.Keys - {d.orig}
    ensures AskInv(nodes, Launch(nodes, d, destinationOnly, reach), d, map[])
  {
    var s := Launch(nodes, d, destinationOnly, reach);
    var r := SendRequest(nodes[d.orig], d.dst, destinationOnly);
    assert s.nodes.Keys == nodes.Keys;
    LaunchAsks(nodes[d.orig], d.dst, destinationOnly);
    forall pk | pk in s.flight ensures pk.from == d.orig && pk.msg == r.sends[0].msg {
      Posted(d.orig, r.sends, reach, d.orig, pk);
    }
  }

  /**
   * In every reachable state of every discovery from a quiet network: each node that accepted asks for the newest
   * number on its tree path, compared pairwise on the way; and the destination has answered with its own number
   * of the start, or with the next one exactly if that is what it was asked for.
   */
  lemma {:induction false} AskTheorem(nodes: map<Addr, NodeState>, d: Discovery, destinationOnly: bool,
                                      reach: set<Addr>, steps: seq<Step>)
      returns (asks: map<Addr, Option<u32>>)
    requires Quiet(nodes, d) && reach <= nodes.Keys - {d.orig}
    requires Legal(Launch(nodes, d, destinationOnly, reach), d, steps)
    ensures AskInv(nodes, Execute(Launch(nodes, d, destinationOnly, reach), d, steps), d, asks)
  {
    hide AskInv, ReplyInv;
    if steps == [] {
      AskLaunch(nodes, d, destinationOnly, reach);
      asks := map[];
    } else {
      var n := |steps| - 1;
      var s := Execute(Launch(nodes, d, destinationOnly, reach), d, steps[..n]);
      var before := AskTheorem(nodes, d, destinationOnly, reach, steps[..n]);
      ReplyRunKeeps(nodes, d, destinationOnly, reach, steps[..n]);
      asks := AskStep(nodes, s, d, before, steps[n]);
    }
  }

  // ----- the number of the answer -----

  ghost predicate Relay(nodes: map<Addr, NodeState>, d: Discovery, x: Addr) {
    x in nodes && x != d.orig && x != d.dst
  }

  /** No relay knows a number newer than no. */
  ghost predicate NoneNewer(nodes: map<Addr, NodeState>, d: Discovery, no: u32) {
    forall x :: Relay(nodes, d, x) && Known(nodes[x], d.dst).Some? ==>
      SignedDiff(no, Known(nodes[x], d.dst).value) >= 0
  }

  /** Somebody but the destination knows the number no. */
  ghost predicate Held(nodes: map<Addr, NodeState>, d: Discovery, no: u32) {
    exists x :: x in nodes && x != d.dst && Known(nodes[x], d.dst) == Some(no)
  }

  lemma AskKeys(start: map<Addr, NodeState>, s: Net, d: Discovery, asks: map<Addr, Option<u32>>)
    requires AskInv(start, s, d, asks)
    ensures start.Keys == s.nodes.Keys && asks.Keys == s.joins.Keys
  {
  }

  /** What is asked for was known to somebody at the start. */
  lemma {:induction false} AskHeld(start: map<Addr, NodeState>, s: Net, d: Discovery, asks: map<Addr, Option<u32>>,
                                   y: Addr)
    requires Inv(s, d) && start.Keys == s.nodes.Keys && Asks(start, s.joins, asks, d) && y in s.joins
    ensures y in asks && (asks[y].Some? ==> Held(start, d, asks[y].value))
    decreases s.joins[y].hop
  {
    assert AskAt(start, s.joins, asks, d, y) && Below(s.joins, d.orig, s.joins[y]);
    var p := s.joins[y].parent;
    if p != d.orig {
      AskHeld(start, s, d, asks, p);
    }
    if asks[y].Some? && asks[y] != AskOf(start, asks, d, p) {
      assert Known(start[y], d.dst) == asks[y];
    }
  }

  /** The number the destination answers with is its own at the start, or the next one. */
  lemma AnswerNumber(nodes: map<Addr, NodeState>, d: Discovery, destinationOnly: bool, reach: set<Addr>,
                     steps: seq<Step>)
    requires Quiet(nodes, d) && reach <= nodes.Keys - {d.orig}
    requires Legal(Launch(nodes, d, destinationOnly, reach), d, steps)
    ensures var s := Execute(Launch(nodes, d, destinationOnly, reach), d, steps);
      && d.dst in s.nodes
      && (s.nodes[d.dst].seqNo == nodes[d.dst].seqNo
          || (s.nodes[d.dst].seqNo == Inc32(nodes[d.dst].seqNo)
              && d.dst in s.joins && Held(nodes, d, Inc32(nodes[d.dst].seqNo))))
  {
    hide Execute, Legal, Launch, Fresh, Held, Inv, Asks, Carried, AskOf;
    var s := Execute(Launch(nodes, d, destinationOnly, reach), d, steps);
    var asks := AskTheorem(nodes, d, destinationOnly, reach, steps);
    RunKeeps(nodes, d, destinationOnly, reach, steps);
    AskKeys(nodes, s, d, asks);
    if d.dst in s.joins {
      AskHeld(nodes, s, d, asks, d.dst);
    }
  }

  /** If nobody knows a number newer than no, none is asked for. */
  lemma AskNotNewer(start: map<Addr, NodeState>, s: Net, d: Discovery, asks: map<Addr, Option<u32>>, y: Addr,
                    no: u32)
    requires Inv(s, d) && start.Keys == s.nodes.Keys && Asks(start, s.joins, asks, d) && y in s.joins
    requires forall x :: x in start && x != d.dst && Known(start[x], d.dst).Some? ==>
      SignedDiff(no, Known(start[x], d.dst).value) >= 0
    ensures y in asks && (asks[y].Some? ==> SignedDiff(no, asks[y].value) >= 0)
  {
    AskHeld(start, s, d, asks, y);
  }

  /** Once no is asked for, it is asked for all the way down to the destination. */
  lemma {:induction false} DownTrail(start: map<Addr, NodeState>, s: Net, d: Discovery,
                                     asks: map<Addr, Option<u32>>, t: seq<Addr>, i: nat, no: u32)
    requires Asks(start, s.joins, asks, d) && Trail(t, d.dst, s.joins, d.orig) && i < |t| && t[i] != d.orig
    requires NoneNewer(start, d, no)
    requires t[i] in asks && asks[t[i]] == Some(no)
    ensures d.dst in asks && asks[d.dst] == Some(no)
    decreases i
  {
    if i > 0 {
      assert AtLevel(t, i, s.joins, d.orig) && AtLevel(t, i - 1, s.joins, d.orig);
      AskedBelow(start, s.joins, asks, d, t[i], t[i - 1], no);
      hide Asks, NoneNewer;
      DownTrail(start, s, d, asks, t, i - 1, no);
    }
  }

  lemma AskedBelow(start: map<Addr, NodeState>, joins: map<Addr, Join>, asks: map<Addr, Option<u32>>, d: Discovery,
                   p: Addr, y: Addr, no: u32)
    requires Asks(start, joins, asks, d) && NoneNewer(start, d, no) && y in joins && joins[y].parent == p
    requires p != d.orig && y != d.orig && p in asks && asks[p] == Some(no)
    ensures y in asks && asks[y] == Some(no)
  {
    hide Known;
    assert AskAt(start, joins, asks, d, y);
    assert y != d.dst ==> Relay(start, d, y);
  }

  // ----- tables that always leave an exact path -----

  ghost predicate HeldByRelay(nodes: map<Addr, NodeState>, d: Discovery, no: u32) {
    exists x :: Relay(nodes, d, x) && Known(nodes[x], d.dst) == Some(no)
  }

  /**
   * No relay is ahead of the number after the destination's own. If that very number is known to anybody, no
   * relay is half the circle away from it either; and if it is known to a relay, the originator does not ask
   * for one that is ahead of it or half the circle away.
   */
  ghost predicate Coherent(nodes: map<Addr, NodeState>, d: Discovery)
    requires d.orig in nodes && d.dst in nodes
  {
    var next, first := Inc32(nodes[d.dst].seqNo), Known(nodes[d.orig], d.dst);
    && (forall x :: Relay(nodes, d, x) && Known(nodes[x], d.dst).Some? ==>
          SignedDiff(Known(nodes[x], d.dst).value, next) <= 0)
    && (Held(nodes, d, next) ==> NoneNewer(nodes, d, next))
    && (HeldByRelay(nodes, d, next) && first.Some? ==> SignedDiff(next, first.value) >= 0)
  }

  /** An entry yields to whichever number is answered, unless it has the next one and the own one is answered. */
  lemma RelayYields(nodes: map<Addr, NodeState>, d: Discovery, x: Addr, no: u32)
    requires d.orig in nodes && d.dst in nodes && Coherent(nodes, d) && Relay(nodes, d, x) && d.dst in nodes[x].table
    requires AnswersOlder(nodes, d, no)
    requires var own := nodes[d.dst].seqNo; no == own || (no == Inc32(own) && Held(nodes, d, no))
    requires Known(nodes[x], d.dst) == Some(Inc32(nodes[d.dst].seqNo)) ==> no == Inc32(nodes[d.dst].seqNo)
    ensures Yields(nodes[x].table[d.dst], no)
  {
    assert Relay(nodes, d, x);
  }

  /** A relay on the trail that knows the next number has made the request ask for it. */
  lemma NextIsAnswered(nodes: map<Addr, NodeState>, s: Net, d: Discovery, asks: map<Addr, Option<u32>>, i: nat)
    requires ReplyInv(s, d) && AskInv(nodes, s, d, asks) && d.orig in nodes && d.dst in nodes && Coherent(nodes, d)
    requires d.dst in s.trails && 1 <= i < |s.trails[d.dst]| && Relay(nodes, d, s.trails[d.dst][i])
    requires Known(nodes[s.trails[d.dst][i]], d.dst) == Some(Inc32(nodes[d.dst].seqNo))
    ensures s.nodes[d.dst].seqNo == Inc32(nodes[d.dst].seqNo)
  {
    hide Flight, History, ReverseRoutes, Members, Replies, Carried;
    var t, no := s.trails[d.dst], Inc32(nodes[d.dst].seqNo);
    var x := t[i];
    assert Trail(t, d.dst, s.joins, d.orig) && AtLevel(t, i, s.joins, d.orig);
    assert HeldByRelay(nodes, d, no) && Held(nodes, d, no);
    assert forall y :: y in nodes && y != d.dst && y != d.orig ==> Relay(nodes, d, y);
    AskNotNewer(nodes, s, d, asks, x, no);
    assert AskAt(nodes, s.joins, asks, d, x) && Below(s.joins, d.orig, s.joins[x]);
    var p := s.joins[x].parent;
    if p != d.orig {
      AskNotNewer(nodes, s, d, asks, p, no);
    }
    DownTrail(nodes, s, d, asks, t, i, no);
  }

  /** If the destination has answered, its reply has left an exact path. */
  ghost predicate ExactAfter(nodes: map<Addr, NodeState>, d: Discovery, destinationOnly: bool, reach: set<Addr>,
                             steps: seq<Step>)
    requires d.orig in nodes && Legal(Launch(nodes, d, destinationOnly, reach), d, steps)
  {
    var s := Execute(Launch(nodes, d, destinationOnly, reach), d, steps);
    d.dst in s.trails ==> d.dst in s.nodes && ExactPath(s.nodes, s.trails[d.dst], d.dst, s.nodes[d.dst].seqNo)
  }

  /**
   * A condition on the start alone: in coherent tables, if whoever could answer in the destination's place has a
   * route older than its number and older than the next one, the forward path is exact in every reachable state
   * of every run.
   */
  lemma ForwardPathFromStart(nodes: map<Addr, NodeState>, d: Discovery, destinationOnly: bool,
                             reach: set<Addr>, steps: seq<Step>)
    requires Quiet(nodes, d) && Coherent(nodes, d) && reach <= nodes.Keys - {d.orig}
    requires AnswersOlder(nodes, d, nodes[d.dst].seqNo) && AnswersOlder(nodes, d, Inc32(nodes[d.dst].seqNo))
    requires Legal(Launch(nodes, d, destinationOnly, reach), d, steps)
    ensures ExactAfter(nodes, d, destinationOnly, reach, steps)
  {
    hide Execute, Legal, Launch, Held, Coherent, ExactPath, AnswersOlder, ReplyInv, AskInv;
    var s := Execute(Launch(nodes, d, destinationOnly, reach), d, steps);
    AnswerNumber(nodes, d, destinationOnly, reach, steps);
    if d.dst in s.trails {
      var no := s.nodes[d.dst].seqNo;
      var asks := AskTheorem(nodes, d, destinationOnly, reach, steps);
      ReplyRunKeeps(nodes, d, destinationOnly, reach, steps);
      AskKeys(nodes, s, d, asks);
      TrailInside(nodes, s, d);
      var t := s.trails[d.dst];
      forall i | 1 <= i < |t| && t[i] != d.orig
        ensures t[i] in nodes && FoundYields(nodes[t[i]], t[i - 1], d.dst, no)
      {
        if Known(nodes[t[i]], d.dst) == Some(Inc32(nodes[d.dst].seqNo)) {
          NextIsAnswered(nodes, s, d, asks, i);
        }
        if d.dst in nodes[t[i]].table {
          RelayYields(nodes, d, t[i], no);
        }
        HeardYields(nodes[t[i]], t[i - 1], d.dst, no);
      }
      ForwardPathTheorem(nodes, d, destinationOnly, reach, steps);
    }
  }

  lemma TrailInside(nodes: map<Addr, NodeState>, s: Net, d: Discovery)
    requires ReplyInv(s, d) && d.dst in s.trails && nodes.Keys == s.nodes.Keys
    ensures var t := s.trails[d.dst];
      forall i :: 1 <= i < |t| && t[i] != d.orig ==> Relay(nodes, d, t[i])
  {
    hide Trail, TreeShape, ReverseRoutes, Flight, Replies, Childless, Members;
    var t := s.trails[d.dst];
    TrailHead(t, d.dst, s.joins, d.orig);
    TrailDistinct(t, d.dst, s.joins, d.orig);
    forall i | 1 <= i < |t| && t[i] != d.orig ensures Relay(nodes, d, t[i]) {
      assert t[i] in t && t[1..][i - 1] == t[i];
    }
  }
}
