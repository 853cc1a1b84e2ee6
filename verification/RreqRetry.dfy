/**
 * Retrying a route discovery at the originator: DeferredRouteOutput, SendRequest, ScheduleRreqRetry and
 * RouteRequestTimerExpire of aodv-routing-protocol.cc, over an explicit clock and with every destination's timer.
 */
module RreqRetry {
  import opened Words
  import opened Options
  import AodvNode
  import RQ = RequestQueue

  /** The part of a routing table entry that steers the retries. */
  datatype Search = Search(flag: AodvNode.Flag, rreqCnt: byte)

  datatype Sent = Sent(dst: Addr, at: int)

  datatype Config = Config(rreqRetries: u32, netTraversalTime: int, maxLen: nat, queueTimeout: int)

  datatype Node = Node(table: map<Addr, Search>, timers: map<Addr, int>, queue: RQ.Queue, sent: seq<Sent>)

  datatype Event =
    | Outbound(now: int, uid: nat, dst: Addr)
    | Fire(now: int, dst: Addr)
    | Answer(now: int, dst: Addr, replaced: bool)

  // ----- the handlers -----

  /** Send one RREQ for dst and start its retry timer: the i-th wait is i times the traversal time. */
  function SendRequest(c: Config, n: Node, dst: Addr, now: int): Node {
    var cnt := Inc8(if dst in n.table then n.table[dst].rreqCnt else 0);
    Node(n.table[dst := Search(AodvNode.IN_SEARCH, cnt)], n.timers[dst := now + cnt * c.netTraversalTime],
         n.queue, n.sent + [Sent(dst, now)])
  }

  function Deferred(c: Config, n: Node, uid: nat, dst: Addr, now: int): Node
    requires c.maxLen >= 1
  {
    var q := RQ.Do(c.maxLen, c.queueTimeout, n.queue, RQ.Put(now, uid, dst));
    var queued := n.(queue := q);
    if q.accepted == n.queue.accepted then queued
    else if dst in n.table && n.table[dst].flag == AodvNode.IN_SEARCH then queued
    else SendRequest(c, queued, dst, now)
  }

  /** Everything queued for dst is handed on, as the loop in SendPacketFromQueue does. */
  function HandOver(q: RQ.Queue, dst: Addr, now: int): RQ.Queue {
    var p := RQ.Purged(q, now);
    p.(entries := RQ.NotFor(p.entries, dst), handed := p.handed + RQ.For(p.entries, dst))
  }

  function GiveUp(c: Config, n: Node, dst: Addr, now: int): Node
    requires c.maxLen >= 1
  {
    Node(n.table - {dst}, n.timers - {dst}, RQ.Do(c.maxLen, c.queueTimeout, n.queue, RQ.DropFor(now, dst)), n.sent)
  }

  function TimerExpire(c: Config, n: Node, dst: Addr, now: int): Node
    requires c.maxLen >= 1
  {
    var toDst := if dst in n.table then n.table[dst] else Search(AodvNode.VALID, 0);
    if dst in n.table && toDst.flag == AodvNode.VALID then n.(queue := HandOver(n.queue, dst, now))
    else if toDst.rreqCnt == c.rreqRetries then GiveUp(c, n, dst, now)
    else if toDst.flag == AodvNode.IN_SEARCH then SendRequest(c, n, dst, now)
    else GiveUp(c, n, dst, now)
  }

  /**
   * What a RREP for its own request does at the originator, once the update rules have replaced the entry or not:
   * a search ends with a fresh entry and without its timer, and the packets that waited are handed on.
   */
  function Answered(n: Node, dst: Addr, now: int, replaced: bool): Node {
    var searching := dst in n.table && n.table[dst].flag == AodvNode.IN_SEARCH;
    Node(if dst !in n.table || searching || replaced then n.table[dst := Search(AodvNode.VALID, 0)] else n.table,
         if searching then n.timers - {dst} else n.timers, HandOver(n.queue, dst, now), n.sent)
  }

  /** A timer that fires is no longer pending until it is scheduled again. */
  function Do(c: Config, n: Node, e: Event): Node
    requires c.maxLen >= 1
  {
    match e
    case Outbound(now, uid, dst) => Deferred(c, n, uid, dst, now)
    case Fire(now, dst) => TimerExpire(c, n.(timers := n.timers - {dst}), dst, now)
    case Answer(now, dst, replaced) => Answered(n, dst, now, replaced)
  }

  // ----- runs -----

  /** The clock moves forward, timers fire when they are due, and none is overrun. */
  ghost predicate Due(n: Node, e: Event, clock: int) {
    && clock <= e.now
    && (forall d :: d in n.timers ==> e.now <= n.timers[d])
    && (e.Fire? ==> e.dst in n.timers && e.now == n.timers[e.dst])
  }

  function ClockOf(start: int, events: seq<Event>): int {
    if events == [] then start else events[|events| - 1].now
  }

  function Run(c: Config, n: Node, events: seq<Event>): Node
    requires c.maxLen >= 1
  {
    if events == [] then n
    else Do(c, Run(c, n, events[..|events| - 1]), events[|events| - 1])
  }

  ghost predicate Legal(c: Config, n: Node, start: int, events: seq<Event>)
    requires c.maxLen >= 1
  {
    events == [] ||
    (var m := |events| - 1;
     Legal(c, n, start, events[..m]) && Due(Run(c, n, events[..m]), events[m], ClockOf(start, events[..m])))
  }

  /** The times of the RREQs sent for dst. */
  function TimesOf(sent: seq<Sent>, dst: Addr): seq<int> {
    if sent == [] then []
    else TimesOf(sent[..|sent| - 1], dst) + if sent[|sent| - 1].dst == dst then [sent[|sent| - 1].at] else []
  }

  /** When the i-th RREQ, from 0, follows the first: T, then 2T, then 3T later, and so on. */
  function Offset(c: Config, i: nat): int {
    if i == 0 then 0 else Offset(c, i - 1) + i * c.netTraversalTime
  }

  lemma {:induction false} OffsetClosedForm(c: Config, i: nat)
    ensures 2 * Offset(c, i) == c.netTraversalTime * (i * (i + 1))
  {
    if i > 0 {
      OffsetClosedForm(c, i - 1);
      assert i * (i + 1) == (i - 1) * i + 2 * i;
      assert c.netTraversalTime * ((i - 1) * i + 2 * i)
          == c.netTraversalTime * ((i - 1) * i) + 2 * (i * c.netTraversalTime);
    }
  }

  /** The times of the first k RREQs of a discovery. */
  function Schedule(c: Config, start: int, k: nat): seq<int> {
    if k == 0 then [] else Schedule(c, start, k - 1) + [start + Offset(c, k - 1)]
  }

  ghost predicate Counting(n: Node, dst: Addr, k: nat) {
    dst in n.timers && dst in n.table && n.table[dst] == Search(AodvNode.IN_SEARCH, k % TWO_8)
  }

  ghost predicate Timed(c: Config, n: Node, dst: Addr, start: int, base: seq<int>, k: nat)
    requires dst in n.timers
  {
    var times := TimesOf(n.sent, dst);
    && |times| == |base| + k
    && (k < TWO_8 ==> times == base + Schedule(c, start, k) && n.timers[dst] == start + Offset(c, k))
  }

  /** A discovery for dst that began at start, after the RREQs in base, and has sent k RREQs. */
  ghost predicate Searching(c: Config, n: Node, dst: Addr, start: int, base: seq<int>, k: nat) {
    Counting(n, dst, k) && Timed(c, n, dst, start, base, k)
  }

  /** No discovery for dst is under way. */
  ghost predicate Idle(n: Node, dst: Addr) {
    dst !in n.timers && (dst in n.table ==> n.table[dst].flag != AodvNode.IN_SEARCH && n.table[dst].rreqCnt == 0)
  }

  lemma TimesSnoc(sent: seq<Sent>, s: Sent, dst: Addr)
    ensures TimesOf(sent + [s], dst) == TimesOf(sent, dst) + if s.dst == dst then [s.at] else []
  {
    var more := sent + [s];
    assert more[..|more| - 1] == sent;
  }

  /** One more RREQ at the moment the timer runs out; the timer itself is no longer pending then. */
  lemma RequestSearches(c: Config, n: Node, dst: Addr, start: int, base: seq<int>, k: nat)
    requires Searching(c, n, dst, start, base, k)
    ensures Searching(c, SendRequest(c, n.(timers := n.timers - {dst}), dst, n.timers[dst]), dst, start, base, k + 1)
  {
    TimesSnoc(n.sent, Sent(dst, n.timers[dst]), dst);
    CounterStep(k);
  }

  lemma CounterStep(k: nat)
    ensures Inc8(k % TWO_8) == (k + 1) % TWO_8
    ensures k < TWO_8 - 1 ==> (k + 1) % TWO_8 == k + 1
  {
  }

  /** The packet is new to the queue, and no discovery for its destination is under way. */
  ghost predicate Begins(n: Node, uid: nat, dst: Addr, now: int) {
    Idle(n, dst) && !RQ.Queued(RQ.Live(n.queue.entries, now), uid, dst)
  }

  /**
   * What an outbound packet does. It is refused only if the same packet for the same destination is queued and
   * alive. If it is accepted and its destination is not being searched, exactly one RREQ goes out, for that
   * destination and at that time, the entry is IN_SEARCH and the retry timer is set.
   */
  lemma PacketStarts(c: Config, n: Node, uid: nat, dst: Addr, now: int)
    requires c.maxLen >= 1
    ensures var n' := Do(c, n, Outbound(now, uid, dst));
      var accepted := !RQ.Queued(RQ.Live(n.queue.entries, now), uid, dst);
      var searching := dst in n.table && n.table[dst].flag == AodvNode.IN_SEARCH;
      && RQ.Queued(n'.queue.entries, uid, dst)
      && (!accepted || searching ==> n'.table == n.table && n'.timers == n.timers && n'.sent == n.sent)
      && (accepted && !searching ==>
            && n'.sent == n.sent + [Sent(dst, now)]
            && dst in n'.table && n'.table[dst].flag == AodvNode.IN_SEARCH
            && n'.table[dst].rreqCnt == ((if dst in n.table then n.table[dst].rreqCnt else 0) + 1) % TWO_8
            && dst in n'.timers && n'.timers[dst] == now + n'.table[dst].rreqCnt * c.netTraversalTime
            && n'.table - {dst} == n.table - {dst} && n'.timers - {dst} == n.timers - {dst})
  {
    var live := RQ.Live(n.queue.entries, now);
    var q := RQ.Do(c.maxLen, c.queueTimeout, n.queue, RQ.Put(now, uid, dst));
    if !RQ.Queued(live, uid, dst) {
      assert q.entries[|q.entries| - 1] == RQ.QueueEntry(uid, dst, c.queueTimeout + now);
    }
  }

  /** Such a packet begins a discovery with one RREQ sent. */
  lemma PacketBegins(c: Config, n: Node, uid: nat, dst: Addr, now: int)
    requires c.maxLen >= 1 && Begins(n, uid, dst, now)
    ensures Searching(c, Do(c, n, Outbound(now, uid, dst)), dst, now, TimesOf(n.sent, dst), 1)
  {
    PacketStarts(c, n, uid, dst, now);
    hide Do;
    TimesSnoc(n.sent, Sent(dst, now), dst);
    assert Schedule(c, now, 1) == [now];
  }

  /** Nothing about other destinations changes, in table or timers. */
  ghost predicate OthersStay(n: Node, n': Node, dst: Addr) {
    n'.table - {dst} == n.table - {dst} && n'.timers - {dst} == n.timers - {dst}
  }

  /** The live packets for dst are handed on in order, and no packet for it is left; what is outdated is reported. */
  ghost predicate HandedOn(q: RQ.Queue, q': RQ.Queue, dst: Addr, now: int) {
    && q'.handed == q.handed + RQ.For(RQ.Live(q.entries, now), dst)
    && q'.reported == q.reported + RQ.Dead(q.entries, now)
    && forall e :: e in q'.entries <==> e in q.entries && now <= e.expire && e.dst != dst
  }

  /** No packet for dst is left: the live ones are reported to their senders, as outdated ones are. */
  ghost predicate Dropped(q: RQ.Queue, q': RQ.Queue, dst: Addr, now: int) {
    && q'.handed == q.handed
    && q'.reported == q.reported + RQ.Dead(q.entries, now) + RQ.For(RQ.Live(q.entries, now), dst)
    && forall e :: e in q'.entries <==> e in q.entries && now <= e.expire && e.dst != dst
  }

  /** Whether a timer that runs out sends the RREQ again. */
  predicate Retries(c: Config, n: Node, dst: Addr) {
    dst in n.table && n.table[dst].flag == AodvNode.IN_SEARCH && n.table[dst].rreqCnt != c.rreqRetries
  }

  predicate Found(n: Node, dst: Addr) { dst in n.table && n.table[dst].flag == AodvNode.VALID }

  lemma QueueParts(q: RQ.Queue, dst: Addr, now: int)
    ensures HandedOn(q, HandOver(q, dst, now), dst, now)
    ensures forall c: Config :: c.maxLen >= 1 ==>
      Dropped(q, RQ.Do(c.maxLen, c.queueTimeout, q, RQ.DropFor(now, dst)), dst, now)
  {
    RQ.LiveMembers(q.entries, now);
    RQ.ForMembers(RQ.Live(q.entries, now), dst);
    hide RQ.Live, RQ.Dead, RQ.For, RQ.NotFor;
  }

  /**
   * The outcomes of a timer that runs out. A VALID entry: the packets are handed on and the entry stays. A search
   * whose counter has not met RreqRetries: one more RREQ, and the timer is set again. Anything else: no entry is
   * left, and the packets are reported to their senders.
   */
  lemma FiredTimer(c: Config, n: Node, dst: Addr, now: int)
    requires c.maxLen >= 1
    ensures var n' := Do(c, n, Fire(now, dst));
      && OthersStay(n, n', dst)
      && (Found(n, dst) ==>
            && dst in n'.table && n'.table[dst] == n.table[dst] && dst !in n'.timers && n'.sent == n.sent
            && HandedOn(n.queue, n'.queue, dst, now))
      && (Retries(c, n, dst) ==>
            && dst in n'.table && n'.table[dst].flag == AodvNode.IN_SEARCH && dst in n'.timers
            && n'.sent == n.sent + [Sent(dst, now)] && n'.queue == n.queue)
      && (!Found(n, dst) && !Retries(c, n, dst) ==>
            && dst !in n'.table && dst !in n'.timers && n'.sent == n.sent && Dropped(n.queue, n'.queue, dst, now))
  {
    hide HandOver, RQ.Do, HandedOn, Dropped;
    QueueParts(n.queue, dst, now);
  }

  /**
   * The outcome of a RREP: the search, if there is one, ends with its timer; the entry is a fresh VALID one after
   * a search, if there was none, or if the update rules have replaced it, and stays otherwise; and what waits is
   * handed on.
   */
  lemma AnswerMeans(c: Config, n: Node, dst: Addr, now: int, replaced: bool)
    requires c.maxLen >= 1
    ensures var n' := Do(c, n, Answer(now, dst, replaced));
      var searching := dst in n.table && n.table[dst].flag == AodvNode.IN_SEARCH;
      && OthersStay(n, n', dst) && n'.sent == n.sent && HandedOn(n.queue, n'.queue, dst, now)
      && dst in n'.table
      && (searching || dst !in n.table || replaced ==> n'.table[dst] == Search(AodvNode.VALID, 0))
      && (!searching && dst in n.table && !replaced ==> n'.table[dst] == n.table[dst])
      && (searching ==> dst !in n'.timers) && (!searching ==> n'.timers == n.timers)
  {
    hide HandOver, HandedOn, Dropped;
    QueueParts(n.queue, dst, now);
  }

  /** Nothing about dst differs. */
  ghost predicate SameFor(n: Node, n': Node, dst: Addr) {
    && (dst in n.table ==> dst in n'.table && n'.table[dst] == n.table[dst])
    && (dst in n.timers ==> dst in n'.timers && n'.timers[dst] == n.timers[dst])
    && TimesOf(n'.sent, dst) == TimesOf(n.sent, dst)
  }

  lemma RequestElsewhere(c: Config, n: Node, other: Addr, now: int, dst: Addr)
    requires other != dst
    ensures SameFor(n, SendRequest(c, n, other, now), dst)
  {
    TimesSnoc(n.sent, Sent(other, now), dst);
  }

  lemma OthersLeaveSearchAlone(c: Config, n: Node, dst: Addr, e: Event)
    requires c.maxLen >= 1 && e.dst != dst
    ensures SameFor(n, Do(c, n, e), dst)
  {
    match e
    case Outbound(now, uid, other) =>
      var q := RQ.Do(c.maxLen, c.queueTimeout, n.queue, RQ.Put(now, uid, other));
      RequestElsewhere(c, n.(queue := q), other, now, dst);
    case Fire(now, other) =>
      RequestElsewhere(c, n.(timers := n.timers - {other}), other, now, dst);
    case Answer(_, _, _) =>
  }

  /** Events for other destinations, and further packets for this one, leave the discovery alone. */
  lemma SearchUndisturbed(c: Config, n: Node, dst: Addr, start: int, base: seq<int>, k: nat, e: Event)
    requires c.maxLen >= 1 && Searching(c, n, dst, start, base, k) && (e.Outbound? || e.dst != dst)
    ensures Searching(c, Do(c, n, e), dst, start, base, k)
  {
    if e.dst != dst {
      OthersLeaveSearchAlone(c, n, dst, e);
    } else {
      assert SameFor(n, Do(c, n, e), dst);
    }
  }

  /** The timer of dst when the counter meets RreqRetries. */
  lemma OwnTimerEnds(c: Config, n: Node, dst: Addr, start: int, base: seq<int>, k: nat)
    requires c.maxLen >= 1 && Searching(c, n, dst, start, base, k) && k % TWO_8 == c.rreqRetries
    ensures var n' := Do(c, n, Fire(n.timers[dst], dst)); GivenUp(n', dst) && n'.sent == n.sent
  {
    RQ.ForMembers(RQ.Purged(n.queue, n.timers[dst]).entries, dst);
  }

  /** The timer of dst when it does not. */
  lemma OwnTimerResends(c: Config, n: Node, dst: Addr, start: int, base: seq<int>, k: nat)
    requires c.maxLen >= 1 && Searching(c, n, dst, start, base, k) && k % TWO_8 != c.rreqRetries
    ensures Searching(c, Do(c, n, Fire(n.timers[dst], dst)), dst, start, base, k + 1)
  {
    RequestSearches(c, n, dst, start, base, k);
  }

  /** The discovery is over: its entry and timer are gone, and no packet for dst is queued. */
  ghost predicate GivenUp(n: Node, dst: Addr) {
    && dst !in n.table && dst !in n.timers
    && forall e :: e in n.queue.entries ==> e.dst != dst
  }

  // ----- the main results -----

  /** How often the timer of dst has fired. */
  function Fires(events: seq<Event>, dst: Addr): nat {
    if events == [] then 0
    else
      var e := events[|events| - 1];
      Fires(events[..|events| - 1], dst) + if e.Fire? && e.dst == dst then 1 else 0
  }

  /**
   * The number of RREQs after which the retry counter, an 8-bit number, meets RreqRetries: never when that
   * is 256 or more, and only after wrapping round when it is 0.
   */
  function Limit(c: Config): Option<nat> {
    if c.rreqRetries >= TWO_8 then None
    else if c.rreqRetries == 0 then Some(TWO_8)
    else Some(c.rreqRetries)
  }

  /** How the counter and the limit meet. */
  lemma LimitMet(c: Config, k: nat)
    requires 1 <= k && (Limit(c) == None || k <= Limit(c).value)
    ensures k % TWO_8 == c.rreqRetries <==> Limit(c) == Some(k)
  {
  }

  /** No RREP for dst comes. */
  ghost predicate Unanswered(events: seq<Event>, dst: Addr) {
    forall i :: 0 <= i < |events| ==> !(events[i].Answer? && events[i].dst == dst)
  }

  lemma RunSnoc(c: Config, n: Node, start: int, events: seq<Event>, e: Event, dst: Addr)
    requires c.maxLen >= 1
    ensures Run(c, n, events + [e]) == Do(c, Run(c, n, events), e)
    ensures Legal(c, n, start, events + [e]) <==>
      Legal(c, n, start, events) && Due(Run(c, n, events), e, ClockOf(start, events))
    ensures Fires(events + [e], dst) == Fires(events, dst) + if e.Fire? && e.dst == dst then 1 else 0
  {
    var all := events + [e];
    assert all[..|all| - 1] == events;
  }

  /** While the timer has fired less often than the limit, the discovery is on, one RREQ ahead of the timer. */
  lemma {:induction false} DiscoveryRun(c: Config, n: Node, dst: Addr, start: int, base: seq<int>, events: seq<Event>)
    requires c.maxLen >= 1 && Searching(c, n, dst, start, base, 1) && Legal(c, n, start, events)
    requires Unanswered(events, dst)
    requires Limit(c) == None || Fires(events, dst) < Limit(c).value
    ensures Searching(c, Run(c, n, events), dst, start, base, Fires(events, dst) + 1)
  {
    hide Do, SendRequest, Offset, Schedule;
    if events != [] {
      var m := |events| - 1;
      var before, k, e := Run(c, n, events[..m]), Fires(events[..m], dst) + 1, events[m];
      DiscoveryRun(c, n, dst, start, base, events[..m]);
      if e.Fire? && e.dst == dst {
        LimitMet(c, k);
        assert e == Fire(before.timers[dst], dst);
        OwnTimerResends(c, before, dst, start, base, k);
        assert Fires(events, dst) + 1 == k + 1;
      } else {
        assert Fires(events, dst) + 1 == k;
        SearchUndisturbed(c, before, dst, start, base, k, e);
      }
    }
  }

  /**
   * With 1 <= k = RreqRetries <= 255, from the packet that begins a discovery and without an answer: exactly k
   * RREQs go out, the i-th (from 0) at offset T*i*(i+1)/2 whatever else is sent or queued meanwhile; the k-th
   * firing of the timer comes at offset T*k*(k+1)/2, and leaves no entry, no timer and no queued packet for the
   * destination.
   */
  lemma DiscoveryDeadline(c: Config, n: Node, uid: nat, dst: Addr, start: int, events: seq<Event>, last: Event)
    requires c.maxLen >= 1 && 1 <= c.rreqRetries < TWO_8 && Begins(n, uid, dst, start) && Unanswered(events, dst)
    requires Legal(c, Do(c, n, Outbound(start, uid, dst)), start, events + [last])
    requires last.Fire? && last.dst == dst && Fires(events, dst) == c.rreqRetries - 1
    ensures var k := c.rreqRetries;
      var end := Run(c, Do(c, n, Outbound(start, uid, dst)), events + [last]);
      && last.now == start + Offset(c, k)
      && GivenUp(end, dst)
      && TimesOf(end.sent, dst) == TimesOf(n.sent, dst) + Schedule(c, start, k)
  {
    hide Do, SendRequest, Offset, Schedule, Begins;
    var k, first := c.rreqRetries, Do(c, n, Outbound(start, uid, dst));
    var base := TimesOf(n.sent, dst);
    RunSnoc(c, first, start, events, last, dst);
    PacketBegins(c, n, uid, dst, start);
    DiscoveryRun(c, first, dst, start, base, events);
    assert Fires(events, dst) + 1 == k;
    OwnTimerEnds(c, Run(c, first, events), dst, start, base, k);
  }

  /** The i-th RREQ of the schedule, in closed form. */
  lemma {:induction false} ScheduleClosedForm(c: Config, start: int, k: nat, i: nat)
    requires i < k
    ensures |Schedule(c, start, k)| == k
    ensures 2 * (Schedule(c, start, k)[i] - start) == c.netTraversalTime * (i * (i + 1))
  {
    if i < k - 1 {
      ScheduleClosedForm(c, start, k - 1, i);
    } else {
      OffsetClosedForm(c, i);
      if k > 1 {
        ScheduleClosedForm(c, start, k - 1, 0);
      }
    }
  }

  lemma {:induction false} OffsetMonotone(c: Config, i: nat, j: nat)
    requires c.netTraversalTime >= 0 && i <= j
    ensures Offset(c, i) <= Offset(c, j)
    decreases j - i
  {
    if i < j {
      OffsetMonotone(c, i + 1, j);
    }
  }

  /** Before its next firing is due the timer keeps the clock back. */
  lemma {:induction false} ClockBound(c: Config, n: Node, dst: Addr, start: int, base: seq<int>, events: seq<Event>)
    requires c.maxLen >= 1 && c.netTraversalTime >= 0 && Searching(c, n, dst, start, base, 1)
    requires Legal(c, n, start, events) && Fires(events, dst) + 1 < TWO_8 && Unanswered(events, dst)
    requires Limit(c) == None || Fires(events, dst) < Limit(c).value
    ensures ClockOf(start, events) <= start + Offset(c, Fires(events, dst) + 1)
  {
    hide Do, SendRequest, Schedule;
    if events == [] {
      OffsetMonotone(c, 0, 1);
    } else {
      var m := |events| - 1;
      DiscoveryRun(c, n, dst, start, base, events[..m]);
      assert Due(Run(c, n, events[..m]), events[m], ClockOf(start, events[..m]));
      OffsetMonotone(c, Fires(events[..m], dst) + 1, Fires(events, dst) + 1);
    }
  }

  /** Once the clock is past the deadline, the timer has fired k times: the discovery cannot still be on. */
  lemma PastTheDeadline(c: Config, n: Node, uid: nat, dst: Addr, start: int, events: seq<Event>)
    requires c.maxLen >= 1 && c.netTraversalTime >= 0 && 1 <= c.rreqRetries < TWO_8 && Begins(n, uid, dst, start)
    requires Legal(c, Do(c, n, Outbound(start, uid, dst)), start, events) && Unanswered(events, dst)
    requires ClockOf(start, events) > start + Offset(c, c.rreqRetries)
    ensures Fires(events, dst) >= c.rreqRetries
  {
    hide Do, Begins;
    if Fires(events, dst) < c.rreqRetries {
      PacketBegins(c, n, uid, dst, start);
      ClockBound(c, Do(c, n, Outbound(start, uid, dst)), dst, start, TimesOf(n.sent, dst), events);
      OffsetMonotone(c, Fires(events, dst) + 1, c.rreqRetries);
    }
  }

  /**
   * When a firing of the timer ends the discovery, for every RreqRetries: exactly when the number of RREQs
   * sent has reached the limit. With RreqRetries >= 256 there is no limit, so no firing ever ends it.
   */
  lemma EndsExactlyAtLimit(c: Config, n: Node, uid: nat, dst: Addr, start: int, events: seq<Event>, last: Event)
    requires c.maxLen >= 1 && Begins(n, uid, dst, start) && Unanswered(events, dst)
    requires Legal(c, Do(c, n, Outbound(start, uid, dst)), start, events + [last])
    requires last.Fire? && last.dst == dst
    requires Limit(c) == None || Fires(events, dst) < Limit(c).value
    ensures var first := Do(c, n, Outbound(start, uid, dst));
      && |TimesOf(Run(c, first, events).sent, dst)| == |TimesOf(n.sent, dst)| + Fires(events, dst) + 1
      && (GivenUp(Run(c, first, events + [last]), dst) <==> Limit(c) == Some(Fires(events, dst) + 1))
  {
    hide Do, SendRequest, Offset, Schedule, Begins;
    var first, k := Do(c, n, Outbound(start, uid, dst)), Fires(events, dst) + 1;
    var base := TimesOf(n.sent, dst);
    RunSnoc(c, first, start, events, last, dst);
    PacketBegins(c, n, uid, dst, start);
    DiscoveryRun(c, first, dst, start, base, events);
    LimitMet(c, k);
    if Limit(c) == Some(k) {
      OwnTimerEnds(c, Run(c, first, events), dst, start, base, k);
    } else {
      OwnTimerResends(c, Run(c, first, events), dst, start, base, k);
    }
  }

  // ----- a discovery that is answered -----

  /** Without a further packet for dst nothing starts a new discovery. */
  lemma {:induction false} StaysIdle(c: Config, n: Node, dst: Addr, start: int, events: seq<Event>)
    requires c.maxLen >= 1 && Idle(n, dst) && Legal(c, n, start, events)
    requires forall i :: 0 <= i < |events| ==> !(events[i].Outbound? && events[i].dst == dst)
    ensures Idle(Run(c, n, events), dst) && TimesOf(Run(c, n, events).sent, dst) == TimesOf(n.sent, dst)
  {
    if events != [] {
      var m := |events| - 1;
      StaysIdle(c, n, dst, start, events[..m]);
      assert Due(Run(c, n, events[..m]), events[m], ClockOf(start, events[..m]));
      IdleStep(c, Run(c, n, events[..m]), dst, events[m]);
    }
  }

  lemma IdleStep(c: Config, n: Node, dst: Addr, e: Event)
    requires c.maxLen >= 1 && Idle(n, dst) && (e.dst != dst || e.Answer?)
    ensures Idle(Do(c, n, e), dst) && TimesOf(Do(c, n, e).sent, dst) == TimesOf(n.sent, dst)
  {
    if e.dst != dst {
      OthersLeaveSearchAlone(c, n, dst, e);
    }
  }

  /**
   * A RREP ends the discovery: when it comes after some firings of the timer, fewer than the limit, exactly one
   * RREQ more than those has been sent, at the scheduled times; the timer is gone, every live packet for the
   * destination is handed on in order and none stays queued; and until the next packet for it no RREQ follows.
   * (Past 255 RREQs, which only a limit above 255 allows, the waits wrap with the counter.)
   */
  lemma AnswerEndsDiscovery(c: Config, n: Node, uid: nat, dst: Addr, start: int, events: seq<Event>, answer: Event,
                            more: seq<Event>)
    requires c.maxLen >= 1 && Begins(n, uid, dst, start) && Unanswered(events, dst)
    requires answer.Answer? && answer.dst == dst
    requires Legal(c, Do(c, n, Outbound(start, uid, dst)), start, events + [answer])
    requires Limit(c) == None || Fires(events, dst) < Limit(c).value
    requires Legal(c, Run(c, Do(c, n, Outbound(start, uid, dst)), events + [answer]), answer.now, more)
    requires forall i :: 0 <= i < |more| ==> !(more[i].Outbound? && more[i].dst == dst)
    ensures var before := Run(c, Do(c, n, Outbound(start, uid, dst)), events);
      var after := Run(c, Do(c, n, Outbound(start, uid, dst)), events + [answer]);
      && dst !in after.timers && dst in after.table && after.table[dst] == Search(AodvNode.VALID, 0)
      && (forall e :: e in after.queue.entries ==> e.dst != dst)
      && after.queue.handed == before.queue.handed + RQ.For(RQ.Live(before.queue.entries, answer.now), dst)
      && var times, k := TimesOf(Run(c, after, more).sent, dst), Fires(events, dst) + 1;
      && |times| == |TimesOf(n.sent, dst)| + k
      && (k < TWO_8 ==> times == TimesOf(n.sent, dst) + Schedule(c, start, k))
  {
    hide SendRequest, Offset, Schedule, Begins, Deferred, TimerExpire;
    var first := Do(c, n, Outbound(start, uid, dst));
    RunSnoc(c, first, start, events, answer, dst);
    PacketBegins(c, n, uid, dst, start);
    DiscoveryRun(c, first, dst, start, TimesOf(n.sent, dst), events);
    var before := Run(c, first, events);
    RQ.ForMembers(RQ.Purged(before.queue, answer.now).entries, dst);
    StaysIdle(c, Do(c, before, answer), dst, answer.now, more);
  }

  // ----- every waiting packet is being searched for -----

  /** A timer is pending exactly for the destinations IN_SEARCH, and only packets for those are queued. */
  ghost predicate Waiting(n: Node) {
    && (forall d :: d in n.timers <==> d in n.table && n.table[d].flag == AodvNode.IN_SEARCH)
    && forall e :: e in n.queue.entries ==> e.dst in n.timers
  }

  const EMPTY: Node := Node(map[], map[], RQ.Queue([], [], [], []), [])

  lemma PutQueues(c: Config, q: RQ.Queue, now: int, uid: nat, dst: Addr)
    requires c.maxLen >= 1
    ensures forall e :: e in RQ.Do(c.maxLen, c.queueTimeout, q, RQ.Put(now, uid, dst)).entries ==>
      e in q.entries || e.dst == dst
  {
    RQ.LiveMembers(q.entries, now);
    hide RQ.Live, RQ.Dead, RQ.Queued;
  }

  lemma DropLeaves(c: Config, q: RQ.Queue, now: int, dst: Addr)
    requires c.maxLen >= 1
    ensures forall e :: e in RQ.Do(c.maxLen, c.queueTimeout, q, RQ.DropFor(now, dst)).entries ==>
      e in q.entries && e.dst != dst
  {
    RQ.LiveMembers(q.entries, now);
    RQ.ForMembers(RQ.Live(q.entries, now), dst);
    hide RQ.Live, RQ.Dead, RQ.For, RQ.NotFor;
  }

  lemma HandedOver(q: RQ.Queue, dst: Addr, now: int)
    ensures forall e :: e in HandOver(q, dst, now).entries ==> e in q.entries && e.dst != dst
  {
    RQ.LiveMembers(q.entries, now);
    RQ.ForMembers(RQ.Purged(q, now).entries, dst);
  }

  lemma WaitingStep(c: Config, n: Node, e: Event)
    requires c.maxLen >= 1 && Waiting(n) && (e.Fire? ==> e.dst in n.timers)
    ensures Waiting(Do(c, n, e))
  {
    hide RQ.Do, HandOver;
    match e
    case Outbound(now, uid, dst) =>
      PutQueues(c, n.queue, now, uid, dst);
      Refused(c, n.queue, now, uid, dst);
    case Fire(now, dst) =>
      DropLeaves(c, n.queue, now, dst);
      HandedOver(n.queue, dst, now);
    case Answer(now, dst, _) => HandedOver(n.queue, dst, now);
  }

  /** A refused packet leaves the queue as purging does. */
  lemma Refused(c: Config, q: RQ.Queue, now: int, uid: nat, dst: Addr)
    requires c.maxLen >= 1
    ensures var r := RQ.Do(c.maxLen, c.queueTimeout, q, RQ.Put(now, uid, dst));
      r.accepted == q.accepted ==> forall e :: e in r.entries ==> e in q.entries
  {
    RQ.LiveMembers(q.entries, now);
  }

  /**
   * In every legal run from the empty node, each queued packet is for a destination that is being searched and
   * whose retry timer is pending; so it does not wait for nothing.
   */
  lemma {:induction false} NobodyForgotten(c: Config, start: int, events: seq<Event>)
    requires c.maxLen >= 1 && Legal(c, EMPTY, start, events)
    ensures Waiting(Run(c, EMPTY, events))
  {
    hide Do;
    if events != [] {
      var m := |events| - 1;
      NobodyForgotten(c, start, events[..m]);
      assert Due(Run(c, EMPTY, events[..m]), events[m], ClockOf(start, events[..m]));
      WaitingStep(c, Run(c, EMPTY, events[..m]), events[m]);
    }
  }

  // ----- no packet is lost -----

  lemma HandOverConserves(q: RQ.Queue, dst: Addr, now: int)
    requires RQ.Conserved(q)
    ensures RQ.Conserved(HandOver(q, dst, now))
  {
    RQ.LiveMembers(q.entries, now);
    RQ.ForMembers(RQ.Purged(q, now).entries, dst);
  }

  lemma {:induction false} QueueRun(c: Config, start: int, events: seq<Event>)
    requires c.maxLen >= 1 && c.queueTimeout >= 0 && Legal(c, EMPTY, start, events)
    ensures RQ.Good(c.maxLen, Run(c, EMPTY, events).queue, ClockOf(start, events) + c.queueTimeout)
  {
    hide Do, RQ.Good;
    if events == [] {
      assert RQ.Good(c.maxLen, EMPTY.queue, start + c.queueTimeout) by { NothingQueued(c, start); }
    } else {
      var m := |events| - 1;
      QueueRun(c, start, events[..m]);
      assert Due(Run(c, EMPTY, events[..m]), events[m], ClockOf(start, events[..m]));
      QueueStep(c, Run(c, EMPTY, events[..m]), events[m], ClockOf(start, events[..m]));
    }
  }

  lemma NothingQueued(c: Config, start: int)
    ensures RQ.Good(c.maxLen, EMPTY.queue, start + c.queueTimeout)
  {
  }

  lemma Later(maxLen: nat, q: RQ.Queue, early: int, late: int)
    requires RQ.Good(maxLen, q, early) && early <= late
    ensures RQ.Good(maxLen, q, late)
  {
  }

  lemma HandOverGood(c: Config, q: RQ.Queue, dst: Addr, now: int, latest: int)
    requires RQ.Good(c.maxLen, q, latest)
    ensures RQ.Good(c.maxLen, HandOver(q, dst, now), latest)
  {
    HandOverConserves(q, dst, now);
    var p := RQ.Purged(q, now);
    RQ.LiveThinned(q.entries, now);
    RQ.ThinnedOrderly(c.maxLen, p.entries, q.entries, latest);
    RQ.NotForThinned(p.entries, dst);
    RQ.ThinnedOrderly(c.maxLen, RQ.NotFor(p.entries, dst), p.entries, latest);
  }

  lemma QueueStep(c: Config, n: Node, e: Event, clock: int)
    requires c.maxLen >= 1 && RQ.Good(c.maxLen, n.queue, clock + c.queueTimeout) && clock <= e.now
    ensures RQ.Good(c.maxLen, Do(c, n, e).queue, e.now + c.queueTimeout)
  {
    hide RQ.Good, RQ.Do, HandOver;
    Later(c.maxLen, n.queue, clock + c.queueTimeout, e.now + c.queueTimeout);
    match e
    case Outbound(now, uid, dst) => RQ.DoKeeps(c.maxLen, c.queueTimeout, n.queue, clock, RQ.Put(now, uid, dst));
    case Fire(now, dst) =>
      RQ.DoKeeps(c.maxLen, c.queueTimeout, n.queue, clock, RQ.DropFor(now, dst));
      HandOverGood(c, n.queue, dst, now, now + c.queueTimeout);
    case Answer(now, dst, _) => HandOverGood(c, n.queue, dst, now, now + c.queueTimeout);
  }

  /**
   * In every legal run from the empty node, each packet that was accepted is queued, was handed on or was reported,
   * exactly as often as it was accepted; the queue keeps to its limit, holds no packet twice for a destination, and
   * has the oldest in front.
   */
  lemma NoPacketLost(c: Config, start: int, events: seq<Event>)
    requires c.maxLen >= 1 && c.queueTimeout >= 0 && Legal(c, EMPTY, start, events)
    ensures var q := Run(c, EMPTY, events).queue;
      && multiset(q.accepted) == multiset(q.entries) + multiset(q.handed) + multiset(q.reported)
      && |q.entries| <= c.maxLen && RQ.OnePerPacket(q.entries) && RQ.OldestFirst(q.entries)
  {
    QueueRun(c, start, events);
  }
}
