/**
 * Chains of relays: each can carry a discovery out and its answer back, and where no relay has a route to answer
 * with, the request of every run has come over one. So the path left is always exact exactly if every chain yields
 * to the answer to what it collects.
 */
module AodvChains {
  import opened Sequences
  import opened Words
  import opened Options
  import opened AodvNode
  import opened AodvFlood
  import opened AodvReply
  import opened AodvForward
  import opened AodvAsked

  // ----- chains of relays -----

  /** A node that neither drops a request heard from src nor answers it. */
  predicate PassesOn(n: NodeState, dst: Addr, src: Addr) {
    dst in n.table ==> n.table[dst].nextHop != src && !(n.table[dst].validSeqNo && n.table[dst].flag == VALID)
  }

  /** Who comes before relay i of p. */
  function Before(d: Discovery, p: seq<Addr>, i: nat): Addr
    requires i <= |p|
  {
    if i == 0 then d.orig else p[i - 1]
  }

  function After(d: Discovery, p: seq<Addr>, i: nat): Addr
    requires i < |p|
  {
    if i == |p| - 1 then d.dst else p[i + 1]
  }

  /** Different relays, each of which passes on what it hears from the one before it. */
  ghost predicate Chain(nodes: map<Addr, NodeState>, d: Discovery, p: seq<Addr>) {
    && p != [] && Distinct(p)
    && forall i :: 0 <= i < |p| ==> Relay(nodes, d, p[i]) && PassesOn(nodes[p[i]], d.dst, Before(d, p, i))
  }

  /** What is asked for after all of p. */
  function Collected(nodes: map<Addr, NodeState>, d: Discovery, p: seq<Addr>): Option<u32> {
    if p == [] then KnownAt(nodes, d, d.orig)
    else Raise(Collected(nodes, d, p[..|p| - 1]), KnownAt(nodes, d, Last(p)))
  }

  /** The relays from position j on, last one first. */
  function Back(p: seq<Addr>, j: nat): (t: seq<Addr>)
    requires j <= |p|
    ensures |t| == |p| - j && forall i :: 0 <= i < |t| ==> t[i] == p[|p| - 1 - i]
  {
    seq(|p| - j, i requires 0 <= i < |p| - j => p[|p| - 1 - i])
  }

  // ----- the request on its way out -----

  lemma RelayedOnce(n: NodeState, q: Rreq, src: Addr) returns (q': Rreq)
    requires (q.origin, q.id) !in n.seen && q.dst != n.addr && q.dst != q.origin && src != q.dst
    requires PassesOn(n, q.dst, src) && q.origin !in n.table && q.hop < TWO_8 - 1
    ensures var r := RecvAodv(n, RREQ(q), src);
      && r.sends == [Broadcast(RREQ(q'))] && !Answers(r.sends)
      && q.origin in r.node.table && r.node.table[q.origin].nextHop == src
      && Lookup(r.node.table, q.dst) == Lookup(n.table, q.dst)
    ensures Asked(q') == Raise(Asked(q), Known(n, q.dst))
  {
    var n1 := UpdateRouteToNeighbor(n, src);
    RequestEffect(n1, q, src);
    RelayAsks(n, q, src);
    RequestAtRelay(n, q, src);
    q' := RecvRequest(n1, q, src).sends[0].msg.rreq;
  }

  /** One relay hears the only packet in flight and is heard by next alone. */
  lemma RelayStep(s: Net, d: Discovery, pk: Packet, next: Addr) returns (out: Packet)
    requires ReplyInv(s, d) && s.flight == multiset{pk} && pk.msg.RREQ? && next in s.nodes && next != pk.to
    requires pk.to != d.dst && pk.to != d.orig && pk.to !in s.joins && PassesOn(s.nodes[pk.to], d.dst, pk.from)
    ensures Enabled(s, Deliver(pk, {next}))
    ensures var s' := Receive(s, d, pk, {next});
      && s'.flight == multiset{out} && out.from == pk.to && out.to == next && out.msg.RREQ?
      && s'.joins.Keys == s.joins.Keys + {pk.to} && s'.trails == s.trails && ReplyInv(s', d)
      && s'.nodes.Keys == s.nodes.Keys && (forall x :: x in s.nodes && x != pk.to ==> s'.nodes[x] == s.nodes[x])
      && d.orig in s'.nodes[pk.to].table && s'.nodes[pk.to].table[d.orig].nextHop == pk.from
      && Lookup(s'.nodes[pk.to].table, d.dst) == Lookup(s.nodes[pk.to].table, d.dst)
      && Asked(out.msg.rreq) == Raise(Asked(pk.msg.rreq), Known(s.nodes[pk.to], d.dst))
  {
    hide RecvAodv, Post, Replies, Receive, Trails, Answers, Raise;
    assert pk in s.flight;
    RequestFacts(s, d, pk);
    hide ReplyInv;
    var q := RelayedOnce(s.nodes[pk.to], pk.msg.rreq, pk.from);
    var _ := AcceptedParts(s, d, pk, {next});
    PostedTo(pk.to, RREQ(q), next, pk.to);
    out := Packet(pk.to, next, RREQ(q), pk.to);
    assert s.flight - multiset{pk} + multiset{out} == multiset{out};
    RequestAccepted(s, d, pk, {next});
  }

  lemma LaunchTo(nodes: map<Addr, NodeState>, d: Discovery, destinationOnly: bool, a: Addr) returns (pk: Packet)
    requires Quiet(nodes, d) && a in nodes && a != d.orig
    ensures var s := Launch(nodes, d, destinationOnly, {a});
      && ReplyInv(s, d) && s.flight == multiset{pk} && pk.from == d.orig && pk.to == a && pk.msg.RREQ?
      && s.joins == map[] && s.trails == map[] && s.nodes.Keys == nodes.Keys
      && (forall x :: x in nodes && x != d.orig ==> s.nodes[x] == nodes[x])
      && Asked(pk.msg.rreq) == Known(nodes[d.orig], d.dst)
  {
    ReplyLaunch(nodes, d, destinationOnly, {a});
    var r := SendRequest(nodes[d.orig], d.dst, destinationOnly);
    LaunchAsks(nodes[d.orig], d.dst, destinationOnly);
    PostedTo(d.orig, r.sends[0].msg, a, d.orig);
    pk := Packet(d.orig, a, r.sends[0].msg, d.orig);
  }

  /** x has its route to the originator through y, and still the entry for the destination it had at the start. */
  ghost predicate Waiting(nodes: map<Addr, NodeState>, now: map<Addr, NodeState>, d: Discovery, x: Addr, y: Addr) {
    && x in nodes && x in now && d.orig in now[x].table && now[x].table[d.orig].nextHop == y
    && Lookup(now[x].table, d.dst) == Lookup(nodes[x].table, d.dst)
  }

  /** The first k relays of p have passed the request on, and it is in flight to the next. */
  ghost predicate Outbound(nodes: map<Addr, NodeState>, s: Net, d: Discovery, p: seq<Addr>, k: nat, pk: Packet)
    requires k <= |p|
  {
    && ReplyInv(s, d) && s.flight == multiset{pk} && pk.msg.RREQ?
    && pk.from == Before(d, p, k) && pk.to == (if k < |p| then p[k] else d.dst)
    && s.nodes.Keys == nodes.Keys && s.trails == map[] && d.dst !in s.joins
    && d.dst in nodes && s.nodes[d.dst].seqNo == nodes[d.dst].seqNo
    && (forall i :: k <= i < |p| ==> p[i] in nodes && p[i] !in s.joins && s.nodes[p[i]] == nodes[p[i]])
    && (forall i :: 0 <= i < k ==> Waiting(nodes, s.nodes, d, p[i], Before(d, p, i)))
    && Asked(pk.msg.rreq) == Collected(nodes, d, p[..k])
  }

  /** What the step of relay k changes, put together. */
  lemma OutboundMade(nodes: map<Addr, NodeState>, s: Net, s': Net, d: Discovery, p: seq<Addr>, k: nat, pk: Packet,
                     out: Packet)
    requires k < |p| && Outbound(nodes, s, d, p, k, pk) && Distinct(p) && p[k] != d.dst
    requires ReplyInv(s', d) && s'.flight == multiset{out} && out.msg.RREQ? && out.from == p[k]
    requires out.to == (if k + 1 < |p| then p[k + 1] else d.dst) && s'.trails == s.trails
    requires s'.nodes.Keys == s.nodes.Keys && s'.joins.Keys == s.joins.Keys + {p[k]}
    requires forall x :: x in s.nodes && x != p[k] ==> s'.nodes[x] == s.nodes[x]
    requires Waiting(nodes, s'.nodes, d, p[k], pk.from)
    requires Asked(out.msg.rreq) == Raise(Asked(pk.msg.rreq), KnownAt(nodes, d, p[k]))
    ensures Outbound(nodes, s', d, p, k + 1, out)
  {
    hide ReplyInv, KnownAt, Raise, Asked, Collected, Waiting;
    CollectedNext(nodes, d, p, k);
    WaitingStays(nodes, s.nodes, s'.nodes, d, p, k);
  }

  lemma OutboundStep(nodes: map<Addr, NodeState>, s: Net, d: Discovery, p: seq<Addr>, k: nat, pk: Packet)
      returns (e: Step, out: Packet)
    requires Quiet(nodes, d) && Chain(nodes, d, p) && k < |p| && Outbound(nodes, s, d, p, k, pk)
    ensures Enabled(s, e) && Outbound(nodes, Apply(s, d, e), d, p, k + 1, out)
  {
    hide ReplyInv, Receive, Quiet, Enabled, Known, Raise, Asked, Collected, PassesOn, Waiting, Lookup;
    var next := if k + 1 < |p| then p[k + 1] else d.dst;
    assert Relay(nodes, d, p[k]) && (k + 1 < |p| ==> Relay(nodes, d, p[k + 1]));
    assert d.orig in nodes && d.dst in nodes by { QuietEnds(nodes, d); }
    out := RelayStep(s, d, pk, next);
    e := Deliver(pk, {next});
    WaitingMade(nodes, Receive(s, d, pk, {next}).nodes, d, p[k], pk.from);
    hide Outbound, Chain;
    OutboundMade(nodes, s, Receive(s, d, pk, {next}), d, p, k, pk, out);
  }

  /** The relays before k are not affected by what happens at k. */
  lemma WaitingStays(nodes: map<Addr, NodeState>, now: map<Addr, NodeState>, more: map<Addr, NodeState>, d: Discovery,
                     p: seq<Addr>, k: nat)
    requires k < |p| && Distinct(p) && more.Keys == now.Keys
    requires forall x :: x in now && x != p[k] ==> more[x] == now[x]
    requires forall i :: 0 <= i < k ==> Waiting(nodes, now, d, p[i], Before(d, p, i))
    ensures forall i :: 0 <= i < k ==> Waiting(nodes, more, d, p[i], Before(d, p, i))
  {
    forall i | 0 <= i < k ensures Waiting(nodes, more, d, p[i], Before(d, p, i)) {
      assert Waiting(nodes, now, d, p[i], Before(d, p, i)) && p[i] != p[k];
    }
  }

  lemma WaitingMade(nodes: map<Addr, NodeState>, now: map<Addr, NodeState>, d: Discovery, x: Addr, y: Addr)
    requires x in nodes && x in now && d.orig in now[x].table && now[x].table[d.orig].nextHop == y
    requires Lookup(now[x].table, d.dst) == Lookup(nodes[x].table, d.dst)
    ensures Waiting(nodes, now, d, x, y)
  {
  }

  lemma CollectedNext(nodes: map<Addr, NodeState>, d: Discovery, p: seq<Addr>, k: nat)
    requires k < |p|
    ensures Collected(nodes, d, p[..k + 1]) == Raise(Collected(nodes, d, p[..k]), KnownAt(nodes, d, p[k]))
  {
    assert p[..k + 1][..k] == p[..k];
  }

  lemma QuietEnds(nodes: map<Addr, NodeState>, d: Discovery)
    requires Quiet(nodes, d)
    ensures d.orig in nodes && d.dst in nodes && d.orig != d.dst
  {
  }

  lemma OutwardFirst(nodes: map<Addr, NodeState>, d: Discovery, destinationOnly: bool, p: seq<Addr>)
      returns (pk: Packet)
    requires Quiet(nodes, d) && Chain(nodes, d, p)
    ensures Outbound(nodes, Launch(nodes, d, destinationOnly, {p[0]}), d, p, 0, pk)
  {
    hide ReplyInv, Launch, PassesOn, Distinct, Known, Asked;
    assert Relay(nodes, d, p[0]);
    assert forall i :: 0 <= i < |p| ==> Relay(nodes, d, p[i]);
    pk := LaunchTo(nodes, d, destinationOnly, p[0]);
  }

  lemma {:induction false} Outward(nodes: map<Addr, NodeState>, d: Discovery, destinationOnly: bool, p: seq<Addr>,
                                   k: nat)
      returns (steps: seq<Step>, pk: Packet)
    requires Quiet(nodes, d) && Chain(nodes, d, p) && k <= |p|
    ensures Legal(Launch(nodes, d, destinationOnly, {p[0]}), d, steps)
    ensures Outbound(nodes, Execute(Launch(nodes, d, destinationOnly, {p[0]}), d, steps), d, p, k, pk)
    decreases k
  {
    assert d.orig in nodes && Relay(nodes, d, p[0]);
    hide ReplyInv, Apply, Enabled, Launch, Outbound, Quiet, Chain;
    if k == 0 {
      pk := OutwardFirst(nodes, d, destinationOnly, p);
      steps := [];
    } else {
      var before, pk0 := Outward(nodes, d, destinationOnly, p, k - 1);
      var start := Launch(nodes, d, destinationOnly, {p[0]});
      var e, out := OutboundStep(nodes, Execute(start, d, before), d, p, k - 1, pk0);
      RunOn(start, d, before, e);
      steps, pk := before + [e], out;
    }
  }

  // ----- the answer on its way home -----

  lemma AnswerStep(s: Net, d: Discovery, pk: Packet) returns (out: Packet)
    requires ReplyInv(s, d) && s.flight == multiset{pk} && pk.msg.RREQ? && pk.to == d.dst && d.dst !in s.joins
    ensures Enabled(s, Deliver(pk, {}))
    ensures var s' := Receive(s, d, pk, {});
      && s'.flight == multiset{out} && ReplyInv(s', d) && s'.nodes.Keys == s.nodes.Keys
      && s'.nodes[d.dst].seqNo == AnswerTo(Asked(pk.msg.rreq), s.nodes[d.dst].seqNo)
      && out == Packet(d.dst, pk.from, RREP(Rrep(0, d.dst, s'.nodes[d.dst].seqNo, d.orig, false)), d.dst)
      && s'.trails == s.trails[d.dst := [d.dst]]
      && forall x :: x in s.nodes && x != d.dst ==> s'.nodes[x] == s.nodes[x]
  {
    hide RecvAodv, Post, Replies, Receive, Trails, Answers, RecvRequest;
    assert pk in s.flight;
    assert d.orig != d.dst by { InvOf(s, d); }
    RequestFacts(s, d, pk);
    hide ReplyInv;
    var n := s.nodes[d.dst];
    AnswerAt(n, pk.msg.rreq, pk.from);
    DestinationAsked(n, pk.msg.rreq, pk.from);
    var reply := Rrep(0, d.dst, RecvAodv(n, pk.msg, pk.from).node.seqNo, d.orig, false);
    var _ := AcceptedParts(s, d, pk, {});
    PostedOne(d.dst, pk.from, RREP(reply), {}, d.dst);
    out := Packet(d.dst, pk.from, RREP(reply), d.dst);
    assert s.flight - multiset{pk} + multiset{out} == multiset{out};
    RequestAccepted(s, d, pk, {});
  }

  lemma PassStep(s: Net, d: Discovery, pk: Packet) returns (out: Packet)
    requires ReplyInv(s, d) && s.flight == multiset{pk} && pk.msg.RREP? && !pk.msg.rrep.ackRequired && pk.to != d.orig
    ensures Enabled(s, Deliver(pk, {})) && pk.source in s.trails
    ensures var s' := Receive(s, d, pk, {});
      && s'.flight == multiset{out} && ReplyInv(s', d)
      && d.orig in s.nodes[pk.to].table
      && out == Packet(pk.to, s.nodes[pk.to].table[d.orig].nextHop, RREP(Next(pk.msg.rrep)), pk.source)
      && s'.trails == s.trails[pk.source := s.trails[pk.source] + [pk.to]] && s'.nodes.Keys == s.nodes.Keys
      && (forall x :: x in s.nodes && x != pk.to ==> s'.nodes[x] == s.nodes[x])
      && Lookup(s'.nodes[pk.to].table, d.dst)
         == Some(Settled(Heard(s.nodes[pk.to], pk.from, d.dst), Offer(pk.msg.rrep, pk.from)))
  {
    hide RecvAodv, Post, Replies, Receive, Trails, Trail;
    assert pk in s.flight;
    InvOf(s, d);
    NotToDestination(s, d, pk);
    ReplyFacts(s, d, pk);
    hide ReplyInv;
    var n, p := s.nodes[pk.to], pk.msg.rrep;
    RelayedReply(n, p, pk.from);
    ReceivedParts(s, d, pk, {});
    var to := n.table[d.orig].nextHop;
    assert Ack(p, pk.from) + [Unicast(to, RREP(Next(p)))] == [Unicast(to, RREP(Next(p)))];
    PostedOne(pk.to, to, RREP(Next(p)), {}, pk.source);
    out := Packet(pk.to, to, RREP(Next(p)), pk.source);
    assert s.flight - multiset{pk} + multiset{out} == multiset{out};
    ReplyReceived(s, d, pk, {});
  }

  /** The entry of relay i has been settled with the answer. */
  ghost predicate Served(nodes: map<Addr, NodeState>, now: map<Addr, NodeState>, d: Discovery, p: seq<Addr>, i: nat,
                         no: u32)
    requires i < |p|
  {
    var next := After(d, p, i);
    && p[i] in nodes && p[i] in now
    && Lookup(now[p[i]].table, d.dst) == Some(Settled(Heard(nodes[p[i]], next, d.dst), Exact(no, |p| - i, next)))
  }

  /** The answer with number no has come back over all relays of p but the first j, and is in flight to the next. */
  ghost predicate Homebound(nodes: map<Addr, NodeState>, s: Net, d: Discovery, p: seq<Addr>, j: nat, pk: Packet,
                            no: u32)
    requires j <= |p|
  {
    && ReplyInv(s, d) && s.flight == multiset{pk} && pk.msg.RREP? && pk.source == d.dst
    && !pk.msg.rrep.ackRequired && pk.msg.rrep.dstSeqno == no && pk.msg.rrep.hop == |p| - j
    && pk.to == Before(d, p, j) && (j > 0 ==> pk.from == After(d, p, j - 1))
    && s.nodes.Keys == nodes.Keys && d.dst in s.nodes && s.nodes[d.dst].seqNo == no
    && s.trails == map[d.dst := [d.dst] + Back(p, j)]
    && (forall i :: 0 <= i < j ==> Waiting(nodes, s.nodes, d, p[i], Before(d, p, i)))
    && forall i :: j <= i < |p| ==> Served(nodes, s.nodes, d, p, i, no)
  }

  lemma HomeboundAt(nodes: map<Addr, NodeState>, s: Net, d: Discovery, p: seq<Addr>, j: nat, pk: Packet, no: u32)
    requires Chain(nodes, d, p) && 0 < j <= |p| && Homebound(nodes, s, d, p, j, pk, no)
    ensures pk.to == p[j - 1] && pk.to in s.nodes && pk.to != d.orig && pk.to != d.dst && Distinct(p)
    ensures d.orig in s.nodes[pk.to].table ==> s.nodes[pk.to].table[d.orig].nextHop == Before(d, p, j - 1)
  {
    assert Relay(nodes, d, p[j - 1]) && Waiting(nodes, s.nodes, d, p[j - 1], Before(d, p, j - 1));
  }

  /** Relay j - 1 settles its entry; those behind it are not affected. */
  lemma ServedNext(nodes: map<Addr, NodeState>, now: map<Addr, NodeState>, more: map<Addr, NodeState>, d: Discovery,
                   p: seq<Addr>, j: nat, reply: Rrep, no: u32)
    requires 0 < j <= |p| < TWO_8 && Distinct(p) && reply.dstSeqno == no && reply.hop == |p| - j
    requires forall i :: j <= i < |p| ==> Served(nodes, now, d, p, i, no)
    requires Waiting(nodes, now, d, p[j - 1], Before(d, p, j - 1))
    requires more.Keys == now.Keys && forall x :: x in now && x != p[j - 1] ==> more[x] == now[x]
    requires Lookup(more[p[j - 1]].table, d.dst)
      == Some(Settled(Heard(now[p[j - 1]], After(d, p, j - 1), d.dst), Offer(reply, After(d, p, j - 1))))
    ensures forall i :: j - 1 <= i < |p| ==> Served(nodes, more, d, p, i, no)
  {
    var x, next := p[j - 1], After(d, p, j - 1);
    HeardSame(now[x], nodes[x], next, d.dst);
    assert Offer(reply, next) == Exact(no, |p| - (j - 1), next);
    hide Heard, Settled, Waiting, After, Offer, Exact, Lookup;
    forall i | j - 1 <= i < |p| ensures Served(nodes, more, d, p, i, no) {
      assert i >= j ==> p[i] != x && Served(nodes, now, d, p, i, no);
    }
  }

  lemma HomeboundMade(nodes: map<Addr, NodeState>, s: Net, s': Net, d: Discovery, p: seq<Addr>, j: nat, pk: Packet,
                      out: Packet, no: u32)
    requires 0 < j <= |p| < TWO_8 && Homebound(nodes, s, d, p, j, pk, no) && Distinct(p) && p[j - 1] != d.dst
    requires ReplyInv(s', d) && s'.flight == multiset{out}
    requires out == Packet(p[j - 1], Before(d, p, j - 1), RREP(Next(pk.msg.rrep)), d.dst)
    requires s'.nodes.Keys == s.nodes.Keys && forall x :: x in s.nodes && x != p[j - 1] ==> s'.nodes[x] == s.nodes[x]
    requires d.dst in s.trails && s'.trails == s.trails[d.dst := s.trails[d.dst] + [p[j - 1]]]
    requires forall i :: j - 1 <= i < |p| ==> Served(nodes, s'.nodes, d, p, i, no)
    ensures Homebound(nodes, s', d, p, j - 1, out, no)
  {
    hide ReplyInv, Back, Distinct, Waiting, Served;
    WaitingStays(nodes, s.nodes, s'.nodes, d, p, j - 1);
    BackNext(p, j, d.dst);
    assert s'.trails == map[d.dst := [d.dst] + Back(p, j - 1)];
  }

  lemma HomeboundStep(nodes: map<Addr, NodeState>, s: Net, d: Discovery, p: seq<Addr>, j: nat, pk: Packet, no: u32)
      returns (e: Step, out: Packet)
    requires Chain(nodes, d, p) && 0 < j <= |p| < TWO_8 && Homebound(nodes, s, d, p, j, pk, no)
    ensures Enabled(s, e) && Homebound(nodes, Apply(s, d, e), d, p, j - 1, out, no)
  {
    HomeboundAt(nodes, s, d, p, j, pk, no);
    hide Chain, ReplyInv, Receive, Enabled, Waiting, Served, Back, Distinct, Before, After, Settled, Heard, Lookup;
    out := PassStep(s, d, pk);
    e := Deliver(pk, {});
    assert Waiting(nodes, s.nodes, d, p[j - 1], Before(d, p, j - 1));
    ServedNext(nodes, s.nodes, Receive(s, d, pk, {}).nodes, d, p, j, pk.msg.rrep, no);
    hide Homebound;
    HomeboundMade(nodes, s, Receive(s, d, pk, {}), d, p, j, pk, out, no);
  }

  /** A chain is shorter than the hop counts are wide. */
  lemma ChainShort(nodes: map<Addr, NodeState>, d: Discovery, p: seq<Addr>)
    requires Quiet(nodes, d) && Chain(nodes, d, p)
    ensures |p| < TWO_8
  {
    hide PassesOn;
    forall i | 0 <= i < |p| ensures p[i] in nodes.Keys - {d.dst} {
      assert Relay(nodes, d, p[i]);
    }
    DistinctBound(p, nodes.Keys - {d.dst});
    assert |nodes.Keys - {d.dst}| == |nodes.Keys| - 1;
  }

  lemma BackNext(p: seq<Addr>, j: nat, x: Addr)
    requires 0 < j <= |p|
    ensures [x] + Back(p, j) + [p[j - 1]] == [x] + Back(p, j - 1)
  {
  }

  lemma Turned(nodes: map<Addr, NodeState>, s: Net, d: Discovery, p: seq<Addr>, pk: Packet)
      returns (e: Step, out: Packet)
    requires Quiet(nodes, d) && Chain(nodes, d, p) && Outbound(nodes, s, d, p, |p|, pk)
    ensures Enabled(s, e)
    ensures Homebound(nodes, Apply(s, d, e), d, p, |p|, out, AnswerTo(Collected(nodes, d, p), nodes[d.dst].seqNo))
  {
    hide ReplyInv, Receive, Quiet, Enabled;
    assert d.dst in nodes by { QuietEnds(nodes, d); }
    assert forall i :: 0 <= i < |p| ==> Relay(nodes, d, p[i]);
    hide Chain, PassesOn, Collected, Asked, AnswerTo;
    out := AnswerStep(s, d, pk);
    e := Deliver(pk, {});
    assert p[..|p|] == p;
    assert [d.dst] + Back(p, |p|) == [d.dst];
  }

  lemma {:induction false} Homeward(nodes: map<Addr, NodeState>, d: Discovery, destinationOnly: bool, p: seq<Addr>,
                                    j: nat)
      returns (steps: seq<Step>, pk: Packet)
    requires Quiet(nodes, d) && Chain(nodes, d, p) && j <= |p|
    ensures Legal(Launch(nodes, d, destinationOnly, {p[0]}), d, steps)
    ensures Homebound(nodes, Execute(Launch(nodes, d, destinationOnly, {p[0]}), d, steps), d, p, j, pk,
                      AnswerTo(Collected(nodes, d, p), nodes[d.dst].seqNo))
    decreases |p| - j
  {
    assert d.orig in nodes && d.dst in nodes && forall i :: 0 <= i < |p| ==> Relay(nodes, d, p[i]);
    ChainShort(nodes, d, p);
    hide Outbound, Homebound, Quiet, Chain, Apply, Enabled, Launch;
    var start, no := Launch(nodes, d, destinationOnly, {p[0]}), AnswerTo(Collected(nodes, d, p), nodes[d.dst].seqNo);
    if j == |p| {
      var before, pk0 := Outward(nodes, d, destinationOnly, p, |p|);
      var e, out := Turned(nodes, Execute(start, d, before), d, p, pk0);
      RunOn(start, d, before, e);
      steps, pk := before + [e], out;
    } else {
      var before, pk0 := Homeward(nodes, d, destinationOnly, p, j + 1);
      var e, out := HomeboundStep(nodes, Execute(start, d, before), d, p, j + 1, pk0, no);
      RunOn(start, d, before, e);
      steps, pk := before + [e], out;
    }
  }

  /** What relay i of p found at the start, as its successor on the chain leaves it, yields to no. */
  ghost predicate ChainYields(nodes: map<Addr, NodeState>, d: Discovery, p: seq<Addr>, no: u32) {
    forall i :: 0 <= i < |p| ==> p[i] in nodes && FoundYields(nodes[p[i]], After(d, p, i), d.dst, no)
  }

  /**
   * In every quiet network, every chain of relays carries some discovery out and its answer back; the destination
   * then answers to what the chain has collected, and the path left on the chain is exact if and only if every
   * entry found on it yields to that number.
   */
  lemma ChainRun(nodes: map<Addr, NodeState>, d: Discovery, destinationOnly: bool, p: seq<Addr>)
      returns (steps: seq<Step>)
    requires Quiet(nodes, d) && Chain(nodes, d, p)
    ensures Legal(Launch(nodes, d, destinationOnly, {p[0]}), d, steps)
    ensures var s, no := Execute(Launch(nodes, d, destinationOnly, {p[0]}), d, steps),
        AnswerTo(Collected(nodes, d, p), nodes[d.dst].seqNo);
      && d.dst in s.nodes && s.nodes[d.dst].seqNo == no
      && d.dst in s.trails && s.trails[d.dst] == [d.dst] + Back(p, 0)
      && (ExactPath(s.nodes, s.trails[d.dst], d.dst, no) <==> ChainYields(nodes, d, p, no))
  {
    var pk;
    steps, pk := Homeward(nodes, d, destinationOnly, p, 0);
    hide Execute, Legal, Launch, ExactPath, ReplyInv, Chain, Quiet, Served, Waiting, ChainYields, Back;
    ServedPath(nodes, Execute(Launch(nodes, d, destinationOnly, {p[0]}), d, steps).nodes, d, p,
               AnswerTo(Collected(nodes, d, p), nodes[d.dst].seqNo));
  }

  /** A settled entry is the exact one if and only if what was found yields. */
  lemma ServedExact(nodes: map<Addr, NodeState>, now: map<Addr, NodeState>, d: Discovery, p: seq<Addr>, i: nat,
                    no: u32)
    requires Chain(nodes, d, p) && i < |p| && Served(nodes, now, d, p, i, no)
    ensures p[i] in nodes && p[i] in now
    ensures ForwardAt(now[p[i]], d.dst, no, |p| - i, After(d, p, i))
       <==> FoundYields(nodes[p[i]], After(d, p, i), d.dst, no)
  {
    assert PassesOn(nodes[p[i]], d.dst, Before(d, p, i));
    OneTakes(nodes[p[i]], After(d, p, i), d.dst, no, |p| - i);
  }

  lemma ServedPath(nodes: map<Addr, NodeState>, now: map<Addr, NodeState>, d: Discovery, p: seq<Addr>, no: u32)
    requires Chain(nodes, d, p) && forall i :: 0 <= i < |p| ==> Served(nodes, now, d, p, i, no)
    ensures ExactPath(now, [d.dst] + Back(p, 0), d.dst, no) <==> ChainYields(nodes, d, p, no)
  {
    hide FoundYields, ForwardAt, Chain, Served;
    var t := [d.dst] + Back(p, 0);
    if ExactPath(now, t, d.dst, no) {
      forall i | 0 <= i < |p| ensures p[i] in nodes && FoundYields(nodes[p[i]], After(d, p, i), d.dst, no) {
        ServedExact(nodes, now, d, p, i, no);
        var k := |p| - i;
        assert t[k] == p[i] && t[k - 1] == After(d, p, i);
      }
    }
    if ChainYields(nodes, d, p, no) {
      forall i | 1 <= i < |t| ensures t[i] in now && ForwardAt(now[t[i]], d.dst, no, i, t[i - 1]) {
        ServedExact(nodes, now, d, p, |p| - i, no);
        assert t[i] == p[|p| - i] && t[i - 1] == After(d, p, |p| - i);
      }
    }
  }

  // ----- every run uses a chain -----

  /** x has passed the request on, so its entry of the start allowed that. */
  ghost predicate Passed(start: map<Addr, NodeState>, joins: map<Addr, Join>, d: Discovery, x: Addr) {
    x in joins && Relay(start, d, x) && PassesOn(start[x], d.dst, joins[x].parent)
  }

  ghost predicate PassInv(start: map<Addr, NodeState>, s: Net, d: Discovery) {
    && Fresh(start, s.nodes, s.joins, d)
    && (forall x :: x in s.joins && s.joins[x].parent != d.orig ==> Passed(start, s.joins, d, s.joins[x].parent))
    && (forall pk :: pk in s.flight && pk.msg.RREQ? && pk.from != d.orig ==> Passed(start, s.joins, d, pk.from))
  }

  lemma PassedGrows(start: map<Addr, NodeState>, joins: map<Addr, Join>, d: Discovery, x: Addr, y: Addr, j: Join)
    requires Passed(start, joins, d, x) && y !in joins
    ensures Passed(start, joins[y := j], d, x)
  {
  }

  /** A relay that sends a request on has an entry that is no obstacle. */
  lemma SentOn(n: NodeState, q: Rreq, src: Addr)
    requires (q.origin, q.id) !in n.seen && q.dst != n.addr && q.dst != q.origin && src != q.dst
    requires q.dst in n.table ==> !(n.table[q.dst].validSeqNo && n.table[q.dst].flag == VALID)
    ensures var r := RecvAodv(n, RREQ(q), src);
      (exists i :: 0 <= i < |r.sends| && r.sends[i].msg.RREQ?) ==> PassesOn(n, q.dst, src)
  {
  }

  lemma PassAccepted(start: map<Addr, NodeState>, s: Net, d: Discovery, pk: Packet, reach: set<Addr>)
    requires ReplyInv(s, d) && PassInv(start, s, d) && NoRoute(start, d)
    requires Enabled(s, Deliver(pk, reach)) && pk.msg.RREQ? && (d.orig, d.id) !in s.nodes[pk.to].seen
    ensures PassInv(start, Receive(s, d, pk, reach), d)
  {
    hide RecvAodv, Answers, Receive, Post, ReplyInv, Inv, Passed;
    var y, n, s' := pk.to, s.nodes[pk.to], Receive(s, d, pk, reach);
    SeenFacts(s, d, pk);
    RequestFacts(s, d, pk);
    var j := AcceptedParts(s, d, pk, reach);
    var sends := RecvAodv(n, pk.msg, pk.from).sends;
    FreshAfter(start, s.nodes, s.joins, d, y, RecvAodv(n, pk.msg, pk.from).node, s.joins[y := j]);
    forall x | x in s'.joins && s'.joins[x].parent != d.orig ensures Passed(start, s'.joins, d, s'.joins[x].parent) {
      PassedGrows(start, s.joins, d, s'.joins[x].parent, y, j);
    }
    forall o | o in s'.flight && o.msg.RREQ? && o.from != d.orig ensures Passed(start, s'.joins, d, o.from) {
      if o in s.flight {
        PassedGrows(start, s.joins, d, o.from, y, j);
      } else {
        NewlyPassed(start, s, d, pk, reach, o, s.joins[y := j]);
      }
    }
  }

  lemma NewlyPassed(start: map<Addr, NodeState>, s: Net, d: Discovery, pk: Packet, reach: set<Addr>, o: Packet,
                    joins: map<Addr, Join>)
    requires ReplyInv(s, d) && Fresh(start, s.nodes, s.joins, d) && NoRoute(start, d)
    requires Enabled(s, Deliver(pk, reach)) && pk.msg.RREQ? && (d.orig, d.id) !in s.nodes[pk.to].seen
    requires o in Post(pk.to, RecvAodv(s.nodes[pk.to], pk.msg, pk.from).sends, reach, pk.to) && o.msg.RREQ?
    requires pk.to in joins && joins[pk.to].parent == pk.from
    ensures Passed(start, joins, d, o.from)
  {
    hide RecvAodv, Answers, Post;
    SeenFacts(s, d, pk);
    RequestFacts(s, d, pk);
    hide ReplyInv;
    var n := s.nodes[pk.to];
    var sends := RecvAodv(n, pk.msg, pk.from).sends;
    Posted(pk.to, sends, reach, pk.to, o);
    if pk.to == d.dst {
      AnswerAt(n, pk.msg.rreq, pk.from);
    } else {
      assert Lookup(n.table, d.dst) == Lookup(start[pk.to].table, d.dst);
      SentOn(n, pk.msg.rreq, pk.from);
    }
  }

  lemma PassStepKeeps(start: map<Addr, NodeState>, s: Net, d: Discovery, step: Step)
    requires ReplyInv(s, d) && PassInv(start, s, d) && NoRoute(start, d) && Enabled(s, step)
    ensures PassInv(start, Apply(s, d, step), d)
  {
    hide Receive, ReplyInv, Passed, NoRoute;
    match step
    case Lose(pk) =>
    case Deliver(pk, reach) =>
      if pk.msg.RREQ? && (d.orig, d.id) !in s.nodes[pk.to].seen {
        PassAccepted(start, s, d, pk, reach);
      } else {
        PassOther(start, s, d, pk, reach);
      }
  }

  lemma PassOther(start: map<Addr, NodeState>, s: Net, d: Discovery, pk: Packet, reach: set<Addr>)
    requires ReplyInv(s, d) && PassInv(start, s, d) && Enabled(s, Deliver(pk, reach))
    requires pk.msg.RREQ? ==> (d.orig, d.id) in s.nodes[pk.to].seen
    ensures PassInv(start, Receive(s, d, pk, reach), d)
  {
    hide RecvAodv, Receive, Post, ReplyInv, Inv, Passed;
    InvOf(s, d);
    OtherParts(s, d, pk, reach);
    if pk.msg.RREP? {
      NoRequests(s, d, pk, reach);
      ReplyFacts(s, d, pk);
    } else {
      OtherFacts(s, d, pk);
      OtherAtNode(s.nodes[pk.to], pk.msg, pk.from, d.dst);
    }
    FreshAfter(start, s.nodes, s.joins, d, pk.to, RecvAodv(s.nodes[pk.to], pk.msg, pk.from).node, s.joins);
  }

  lemma {:induction false} PassRun(nodes: map<Addr, NodeState>, d: Discovery, destinationOnly: bool, reach: set<Addr>,
                                   steps: seq<Step>)
    requires Quiet(nodes, d) && NoRoute(nodes, d) && reach <= nodes.Keys - {d.orig}
    requires Legal(Launch(nodes, d, destinationOnly, reach), d, steps)
    ensures PassInv(nodes, Execute(Launch(nodes, d, destinationOnly, reach), d, steps), d)
  {
    hide ReplyInv, NoRoute;
    var start := Launch(nodes, d, destinationOnly, reach);
    if steps == [] {
      LaunchTables(nodes, d, destinationOnly, reach, 0, true);
      forall pk | pk in start.flight ensures pk.from == d.orig {
        Posted(d.orig, SendRequest(nodes[d.orig], d.dst, destinationOnly).sends, reach, d.orig, pk);
      }
    } else {
      hide PassInv;
      var n := |steps| - 1;
      PassRun(nodes, d, destinationOnly, reach, steps[..n]);
      ReplyRunKeeps(nodes, d, destinationOnly, reach, steps[..n]);
      PassStepKeeps(nodes, Execute(start, d, steps[..n]), d, steps[n]);
    }
  }

  /** p is the tree path from the originator to its last relay. */
  ghost predicate TreePath(joins: map<Addr, Join>, d: Discovery, p: seq<Addr>) {
    forall i :: 0 <= i < |p| ==> p[i] in joins && joins[p[i]].hop == i + 1 && joins[p[i]].parent == Before(d, p, i)
  }

  /** The tree path to a relay that has passed the request on is a chain, and it has collected what that asks for. */
  lemma {:induction false} TreeChain(start: map<Addr, NodeState>, s: Net, d: Discovery, asks: map<Addr, Option<u32>>,
                                     x: Addr)
      returns (p: seq<Addr>)
    requires TreeShape(s.joins, d.orig) && PassInv(start, s, d) && Asks(start, s.joins, asks, d)
    requires Passed(start, s.joins, d, x)
    ensures Chain(start, d, p) && Last(p) == x && TreePath(s.joins, d, p) && |p| == s.joins[x].hop
    ensures x in asks && Collected(start, d, p) == asks[x]
    decreases s.joins[x].hop
  {
    var j := s.joins[x];
    assert Below(s.joins, d.orig, j) && AskAt(start, s.joins, asks, d, x);
    hide Fresh, Asks, TreeShape;
    var before := [];
    if j.parent != d.orig {
      before := TreeChain(start, s, d, asks, j.parent);
    }
    p := before + [x];
    assert p[..|p| - 1] == before;
    ChainGrows(start, s.joins, d, before, x);
  }

  lemma ChainGrows(start: map<Addr, NodeState>, joins: map<Addr, Join>, d: Discovery, p: seq<Addr>, x: Addr)
    requires p == [] || Chain(start, d, p)
    requires TreePath(joins, d, p) && Passed(start, joins, d, x) && joins[x].hop == |p| + 1
    requires joins[x].parent == Before(d, p, |p|)
    ensures Chain(start, d, p + [x]) && TreePath(joins, d, p + [x])
  {
    hide PassesOn;
    var q := p + [x];
    forall i | 0 <= i < |q|
      ensures Relay(start, d, q[i]) && PassesOn(start[q[i]], d.dst, Before(d, q, i))
      ensures q[i] in joins && joins[q[i]].hop == i + 1 && joins[q[i]].parent == Before(d, q, i)
    {
      assert Before(d, q, i) == Before(d, p, i);
      if i < |p| {
        assert q[i] == p[i] && Relay(start, d, p[i]);
      }
    }
  }

  /** In every run the reply leaves an exact path. */
  ghost predicate AlwaysExact(nodes: map<Addr, NodeState>, d: Discovery, destinationOnly: bool)
    requires d.orig in nodes
  {
    forall reach, steps :: reach <= nodes.Keys - {d.orig} && Legal(Launch(nodes, d, destinationOnly, reach), d, steps)
      ==> ExactAfter(nodes, d, destinationOnly, reach, steps)
  }

  /** Every chain yields to the answer to what it collects. */
  ghost predicate ChainsYield(nodes: map<Addr, NodeState>, d: Discovery)
    requires d.dst in nodes
  {
    forall p :: Chain(nodes, d, p) ==>
      ChainYields(nodes, d, p, AnswerTo(Collected(nodes, d, p), nodes[d.dst].seqNo))
  }

  /** The trail of the answer goes back over the tree path of the node that the destination heard the request from. */
  lemma {:induction false} TrailOnPath(joins: map<Addr, Join>, d: Discovery, t: seq<Addr>, p: seq<Addr>, i: nat)
    requires Trail(t, d.dst, joins, d.orig) && TreePath(joins, d, p) && p != [] && joins[d.dst].parent == Last(p)
    requires 1 <= i < |t| && t[i] != d.orig
    ensures i <= |p| && t[i] == p[|p| - i] && t[i - 1] == After(d, p, |p| - i)
    decreases i
  {
    assert AtLevel(t, i, joins, d.orig) && AtLevel(t, i - 1, joins, d.orig);
    if i > 1 {
      TrailOnPath(joins, d, t, p, i - 1);
    }
  }

  /** The entries on the trail of any answer yield to it, if every chain does. */
  lemma ChainsCover(start: map<Addr, NodeState>, s: Net, d: Discovery, asks: map<Addr, Option<u32>>)
    requires ReplyInv(s, d) && PassInv(start, s, d) && AskInv(start, s, d, asks)
    requires d.dst in start && ChainsYield(start, d) && d.dst in s.trails
    ensures d.dst in s.nodes && TrailYields(start, s.trails[d.dst], d, s.nodes[d.dst].seqNo)
  {
    var t := s.trails[d.dst];
    assert Trail(t, d.dst, s.joins, d.orig) && d.dst in s.joins;
    var y := s.joins[d.dst].parent;
    assert AskAt(start, s.joins, asks, d, d.dst);
    hide ReplyInv, Fresh, Asks, Carried, FoundYields, Passed;
    if y == d.orig {
      OnlyOriginator(t, s.joins, d);
    } else {
      var p := TreeChain(start, s, d, asks, y);
      forall i | 1 <= i < |t| && t[i] != d.orig
        ensures t[i] in start && FoundYields(start[t[i]], t[i - 1], d.dst, s.nodes[d.dst].seqNo)
      {
        TrailOnPath(s.joins, d, t, p, i);
      }
    }
  }

  lemma OnlyOriginator(t: seq<Addr>, joins: map<Addr, Join>, d: Discovery)
    requires Trail(t, d.dst, joins, d.orig) && joins[d.dst].parent == d.orig
    ensures forall i :: 1 <= i < |t| ==> t[i] == d.orig
  {
    if |t| > 1 {
      assert AtLevel(t, 0, joins, d.orig) && AtLevel(t, 1, joins, d.orig);
    }
  }

  /**
   * Which tables always leave an exact path: only those in which every chain of relays yields to the answer to
   * what it collects; and where no relay has a route to answer with, exactly those.
   */
  lemma AlwaysExactChains(nodes: map<Addr, NodeState>, d: Discovery, destinationOnly: bool)
    requires Quiet(nodes, d)
    ensures AlwaysExact(nodes, d, destinationOnly) ==> ChainsYield(nodes, d)
    ensures NoRoute(nodes, d) ==> (AlwaysExact(nodes, d, destinationOnly) <==> ChainsYield(nodes, d))
  {
    hide Quiet, NoRoute, Chain, Execute, Legal, Launch, ExactAfter, ChainYields, Collected, AnswerTo;
    QuietEnds(nodes, d);
    if !ChainsYield(nodes, d) {
      var p :| Chain(nodes, d, p)
        && !ChainYields(nodes, d, p, AnswerTo(Collected(nodes, d, p), nodes[d.dst].seqNo));
      ChainSpoils(nodes, d, destinationOnly, p);
    } else if NoRoute(nodes, d) {
      forall reach, steps | reach <= nodes.Keys - {d.orig}
          && Legal(Launch(nodes, d, destinationOnly, reach), d, steps)
        ensures ExactAfter(nodes, d, destinationOnly, reach, steps)
      {
        RunExact(nodes, d, destinationOnly, reach, steps);
      }
    }
  }

  lemma RunExact(nodes: map<Addr, NodeState>, d: Discovery, destinationOnly: bool, reach: set<Addr>,
                 steps: seq<Step>)
    requires Quiet(nodes, d) && NoRoute(nodes, d) && ChainsYield(nodes, d) && reach <= nodes.Keys - {d.orig}
    requires Legal(Launch(nodes, d, destinationOnly, reach), d, steps)
    ensures ExactAfter(nodes, d, destinationOnly, reach, steps)
  {
    hide Execute, Legal, Launch, ReplyInv, PassInv, AskInv, ChainsYield, ExactPath, TrailYields, NoRoute;
    var s := Execute(Launch(nodes, d, destinationOnly, reach), d, steps);
    if d.dst in s.trails {
      var asks := AskTheorem(nodes, d, destinationOnly, reach, steps);
      ReplyRunKeeps(nodes, d, destinationOnly, reach, steps);
      PassRun(nodes, d, destinationOnly, reach, steps);
      ChainsCover(nodes, s, d, asks);
      ForwardPathIff(nodes, d, destinationOnly, reach, steps);
    }
  }

  lemma ChainSpoils(nodes: map<Addr, NodeState>, d: Discovery, destinationOnly: bool, p: seq<Addr>)
    requires Quiet(nodes, d) && Chain(nodes, d, p)
    requires !ChainYields(nodes, d, p, AnswerTo(Collected(nodes, d, p), nodes[d.dst].seqNo))
    ensures !AlwaysExact(nodes, d, destinationOnly)
  {
    assert Relay(nodes, d, p[0]) && {p[0]} <= nodes.Keys - {d.orig};
    hide ChainYields, Quiet, Chain, Execute, Legal, Launch, ExactPath, Collected, AnswerTo, Back;
    var steps := ChainRun(nodes, d, destinationOnly, p);
    assert !ExactAfter(nodes, d, destinationOnly, {p[0]}, steps);
  }
}
