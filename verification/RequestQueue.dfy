/** The queue of packets that wait for a route: aodv-rqueue.cc. */
module RequestQueue {
  import opened Sequences
  import opened Words
  import opened Options

  /** uid stands for the packet, dst for the destination in its IP header; expire is an absolute time. */
  datatype QueueEntry = QueueEntry(uid: nat, dst: Addr, expire: int)

  predicate Expired(e: QueueEntry, now: int) { e.expire - now < 0 }

  function Live(q: seq<QueueEntry>, now: int): seq<QueueEntry> {
    if q == [] then []
    else Live(q[..|q| - 1], now) + if Expired(q[|q| - 1], now) then [] else [q[|q| - 1]]
  }

  function Dead(q: seq<QueueEntry>, now: int): seq<QueueEntry> {
    if q == [] then []
    else Dead(q[..|q| - 1], now) + if Expired(q[|q| - 1], now) then [q[|q| - 1]] else []
  }

  function For(q: seq<QueueEntry>, dst: Addr): seq<QueueEntry> {
    if q == [] then []
    else For(q[..|q| - 1], dst) + if q[|q| - 1].dst == dst then [q[|q| - 1]] else []
  }

  function NotFor(q: seq<QueueEntry>, dst: Addr): seq<QueueEntry> {
    if q == [] then []
    else NotFor(q[..|q| - 1], dst) + if q[|q| - 1].dst == dst then [] else [q[|q| - 1]]
  }

  predicate Queued(q: seq<QueueEntry>, uid: nat, dst: Addr) {
    exists i :: 0 <= i < |q| && q[i].uid == uid && q[i].dst == dst
  }

  /** The position Dequeue serves, |q| if there is none. */
  function FirstFor(q: seq<QueueEntry>, dst: Addr): (k: nat)
    ensures k <= |q| && (k < |q| ==> q[k].dst == dst)
    ensures forall i :: 0 <= i < k ==> q[i].dst != dst
  {
    if q == [] then 0
    else
      var m := |q| - 1;
      var k := FirstFor(q[..m], dst);
      if k < m then k else if q[m].dst == dst then m else |q|
  }

  function Without(q: seq<QueueEntry>, k: nat): seq<QueueEntry>
    requires k < |q|
  {
    q[..k] + q[k + 1..]
  }

  // ----- the queue as a value, with the history of its entries -----

  datatype Queue = Queue(entries: seq<QueueEntry>, accepted: seq<QueueEntry>,
                         handed: seq<QueueEntry>, reported: seq<QueueEntry>)

  datatype Op = Put(now: int, uid: nat, dst: Addr) | Take(now: int, dst: Addr)
              | DropFor(now: int, dst: Addr) | Measure(now: int)

  function Purged(q: Queue, now: int): Queue {
    q.(entries := Live(q.entries, now), reported := q.reported + Dead(q.entries, now))
  }

  function Do(maxLen: nat, timeout: int, q: Queue, op: Op): Queue
    requires maxLen >= 1
  {
    var p := Purged(q, op.now);
    match op
    case Put(now, uid, dst) =>
      if Queued(p.entries, uid, dst) then p
      else
        var e := QueueEntry(uid, dst, timeout + now);
        if |p.entries| == maxLen then
          Queue(p.entries[1..] + [e], p.accepted + [e], p.handed, p.reported + [p.entries[0]])
        else p.(entries := p.entries + [e], accepted := p.accepted + [e])
    case Take(_, dst) =>
      var k := FirstFor(p.entries, dst);
      if k < |p.entries| then p.(entries := Without(p.entries, k), handed := p.handed + [p.entries[k]]) else p
    case DropFor(_, dst) =>
      p.(entries := NotFor(p.entries, dst), reported := p.reported + For(p.entries, dst))
    case Measure(_) => p
  }

  function Run(maxLen: nat, timeout: int, ops: seq<Op>): Queue
    requires maxLen >= 1
  {
    if ops == [] then Queue([], [], [], [])
    else Do(maxLen, timeout, Run(maxLen, timeout, ops[..|ops| - 1]), ops[|ops| - 1])
  }

  // ----- what every run keeps -----

  ghost predicate OnePerPacket(q: seq<QueueEntry>) {
    forall i, j :: 0 <= i < j < |q| ==> !(q[i].uid == q[j].uid && q[i].dst == q[j].dst)
  }

  ghost predicate OldestFirst(q: seq<QueueEntry>) {
    forall i, j :: 0 <= i < j < |q| ==> q[i].expire <= q[j].expire
  }

  ghost predicate UpTo(q: seq<QueueEntry>, latest: int) {
    forall i :: 0 <= i < |q| ==> q[i].expire <= latest
  }

  /** Every accepted packet is still queued, or was handed out, or was reported to its error callback. */
  ghost predicate Conserved(q: Queue) {
    multiset(q.accepted) == multiset(q.entries) + multiset(q.handed) + multiset(q.reported)
  }

  /** Dropping elements keeps uniqueness, order and bounds. */
  ghost predicate Thinned(s: seq<QueueEntry>, q: seq<QueueEntry>) {
    && |s| <= |q|
    && (OnePerPacket(q) ==> OnePerPacket(s))
    && (OldestFirst(q) ==> OldestFirst(s))
    && (forall e :: e in s ==> e in q)
  }

  lemma ThinnedSnoc(s: seq<QueueEntry>, q: seq<QueueEntry>, e: QueueEntry)
    requires Thinned(s, q)
    ensures Thinned(s, q + [e]) && Thinned(s + [e], q + [e])
  {
    var t, r := s + [e], q + [e];
    if OnePerPacket(r) {
      assert forall i, j :: 0 <= i < j < |q| ==> r[i] == q[i] && r[j] == q[j];
      assert OnePerPacket(q);
      forall i | 0 <= i < |s| ensures !(s[i].uid == e.uid && s[i].dst == e.dst) {
        assert s[i] in s;
        var k :| 0 <= k < |q| && q[k] == s[i];
        assert r[k] == q[k] && r[|q|] == e;
      }
    }
    if OldestFirst(r) {
      assert forall i, j :: 0 <= i < j < |q| ==> r[i] == q[i] && r[j] == q[j];
      assert OldestFirst(q);
      forall i | 0 <= i < |s| ensures s[i].expire <= e.expire {
        assert s[i] in s;
        var k :| 0 <= k < |q| && q[k] == s[i];
        assert r[k] == q[k] && r[|q|] == e;
      }
    }
  }

  lemma {:induction false} LiveMembers(q: seq<QueueEntry>, now: int)
    ensures forall e :: e in Live(q, now) <==> e in q && now <= e.expire
    ensures multiset(q) == multiset(Live(q, now)) + multiset(Dead(q, now))
  {
    if q != [] {
      LiveMembers(q[..|q| - 1], now);
      assert q == q[..|q| - 1] + [q[|q| - 1]];
    }
  }

  lemma {:induction false} LiveThinned(q: seq<QueueEntry>, now: int)
    ensures Thinned(Live(q, now), q)
  {
    if q != [] {
      var m := |q| - 1;
      LiveThinned(q[..m], now);
      ThinnedSnoc(Live(q[..m], now), q[..m], q[m]);
      assert q == q[..m] + [q[m]];
    }
  }

  lemma {:induction false} ForMembers(q: seq<QueueEntry>, dst: Addr)
    ensures forall e :: e in NotFor(q, dst) <==> e in q && e.dst != dst
    ensures multiset(q) == multiset(NotFor(q, dst)) + multiset(For(q, dst))
  {
    if q != [] {
      ForMembers(q[..|q| - 1], dst);
      assert q == q[..|q| - 1] + [q[|q| - 1]];
    }
  }

  lemma {:induction false} NotForThinned(q: seq<QueueEntry>, dst: Addr)
    ensures Thinned(NotFor(q, dst), q)
  {
    if q != [] {
      var m := |q| - 1;
      NotForThinned(q[..m], dst);
      ThinnedSnoc(NotFor(q[..m], dst), q[..m], q[m]);
      assert q == q[..m] + [q[m]];
    }
  }

  lemma WithoutFacts(q: seq<QueueEntry>, k: nat)
    requires k < |q|
    ensures Thinned(Without(q, k), q)
    ensures multiset(q) == multiset(Without(q, k)) + multiset{q[k]}
  {
    assert q == q[..k] + [q[k]] + q[k + 1..];
  }

  lemma UpToThinned(s: seq<QueueEntry>, q: seq<QueueEntry>, latest: int)
    requires Thinned(s, q) && UpTo(q, latest)
    ensures UpTo(s, latest)
  {
    forall i | 0 <= i < |s| ensures s[i].expire <= latest {
      assert s[i] in s;
    }
  }

  /** The queue without the conservation law. */
  ghost predicate Orderly(maxLen: nat, q: seq<QueueEntry>, latest: int) {
    |q| <= maxLen && OnePerPacket(q) && OldestFirst(q) && UpTo(q, latest)
  }

  ghost predicate Good(maxLen: nat, q: Queue, latest: int) {
    Orderly(maxLen, q.entries, latest) && Conserved(q)
  }

  lemma ThinnedOrderly(maxLen: nat, s: seq<QueueEntry>, q: seq<QueueEntry>, latest: int)
    requires Thinned(s, q) && Orderly(maxLen, q, latest)
    ensures Orderly(maxLen, s, latest)
  {
    UpToThinned(s, q, latest);
  }

  lemma GoodPurged(maxLen: nat, q: Queue, latest: int, now: int)
    requires Good(maxLen, q, latest)
    ensures Good(maxLen, Purged(q, now), latest)
  {
    LiveThinned(q.entries, now);
    LiveMembers(q.entries, now);
    ThinnedOrderly(maxLen, Live(q.entries, now), q.entries, latest);
  }

  lemma PutOrderly(maxLen: nat, q: seq<QueueEntry>, latest: int, e: QueueEntry)
    requires maxLen >= 1 && Orderly(maxLen, q, latest) && latest <= e.expire && !Queued(q, e.uid, e.dst)
    ensures var rest := if |q| == maxLen then q[1..] else q;
      && Orderly(maxLen, rest + [e], e.expire)
      && multiset(q) == multiset(rest) + if |q| == maxLen then multiset{q[0]} else multiset{}
  {
    var rest := if |q| == maxLen then q[1..] else q;
    assert |q| == maxLen ==> q == [q[0]] + rest;
  }

  lemma PutConserves(maxLen: nat, p: Queue, e: QueueEntry, r: Queue)
    requires maxLen >= 1 && Conserved(p) && (|p.entries| == maxLen ==> p.entries != [])
    requires r == if |p.entries| == maxLen
      then Queue(p.entries[1..] + [e], p.accepted + [e], p.handed, p.reported + [p.entries[0]])
      else p.(entries := p.entries + [e], accepted := p.accepted + [e])
    ensures Conserved(r)
  {
    if |p.entries| == maxLen {
      assert p.entries == [p.entries[0]] + p.entries[1..];
    }
  }

  lemma PutKeeps(maxLen: nat, timeout: int, q: Queue, latest: int, now: int, uid: nat, dst: Addr)
    requires maxLen >= 1 && Good(maxLen, q, latest) && latest <= now + timeout
    ensures Good(maxLen, Do(maxLen, timeout, q, Put(now, uid, dst)), now + timeout)
  {
    var p := Purged(q, now);
    GoodPurged(maxLen, q, latest, now);
    if !Queued(p.entries, uid, dst) {
      var e := QueueEntry(uid, dst, timeout + now);
      PutOrderly(maxLen, p.entries, latest, e);
      PutConserves(maxLen, p, e, Do(maxLen, timeout, q, Put(now, uid, dst)));
    }
  }

  lemma TakeKeeps(maxLen: nat, timeout: int, q: Queue, latest: int, now: int, dst: Addr)
    requires maxLen >= 1 && Good(maxLen, q, latest)
    ensures Good(maxLen, Do(maxLen, timeout, q, Take(now, dst)), latest)
  {
    var p := Purged(q, now);
    GoodPurged(maxLen, q, latest, now);
    var k := FirstFor(p.entries, dst);
    if k < |p.entries| {
      WithoutFacts(p.entries, k);
      ThinnedOrderly(maxLen, Without(p.entries, k), p.entries, latest);
    }
  }

  lemma DropForKeeps(maxLen: nat, timeout: int, q: Queue, latest: int, now: int, dst: Addr)
    requires maxLen >= 1 && Good(maxLen, q, latest)
    ensures Good(maxLen, Do(maxLen, timeout, q, DropFor(now, dst)), latest)
    ensures forall e :: e in Do(maxLen, timeout, q, DropFor(now, dst)).entries ==> e.dst != dst
  {
    var p := Purged(q, now);
    GoodPurged(maxLen, q, latest, now);
    ForMembers(p.entries, dst);
    NotForThinned(p.entries, dst);
    ThinnedOrderly(maxLen, NotFor(p.entries, dst), p.entries, latest);
  }

  /** One operation at a time no earlier than the last. */
  lemma DoKeeps(maxLen: nat, timeout: int, q: Queue, last: int, op: Op)
    requires maxLen >= 1 && Good(maxLen, q, last + timeout) && last <= op.now
    ensures Good(maxLen, Do(maxLen, timeout, q, op), op.now + timeout)
  {
    match op
    case Put(now, uid, dst) => PutKeeps(maxLen, timeout, q, last + timeout, now, uid, dst);
    case Take(now, dst) => TakeKeeps(maxLen, timeout, q, last + timeout, now, dst);
    case DropFor(now, dst) => DropForKeeps(maxLen, timeout, q, last + timeout, now, dst);
    case Measure(now) => GoodPurged(maxLen, q, last + timeout, now);
  }

  ghost predicate Clock(ops: seq<Op>) {
    forall i, j :: 0 <= i < j < |ops| ==> ops[i].now <= ops[j].now
  }

  /**
   * Over every run with a fixed limit, a fixed timeout and a clock that does not run backwards: the limit
   * is kept, no packet is queued twice for a destination, the front is the oldest, and every accepted
   * packet is queued, was handed out or was reported, exactly as often as it was accepted.
   */
  lemma {:induction false} RunIsGood(maxLen: nat, timeout: int, ops: seq<Op>, now: int)
    requires maxLen >= 1 && Clock(ops) && forall i :: 0 <= i < |ops| ==> ops[i].now <= now
    ensures Good(maxLen, Run(maxLen, timeout, ops), now + timeout)
  {
    if ops != [] {
      var m := |ops| - 1;
      RunIsGood(maxLen, timeout, ops[..m], ops[m].now);
      DoKeeps(maxLen, timeout, Run(maxLen, timeout, ops[..m]), ops[m].now, ops[m]);
    }
  }

  /** got is a live packet for dst, and no live packet for dst was queued with an earlier expiry. */
  ghost predicate Earliest(q: seq<QueueEntry>, now: int, dst: Addr, got: QueueEntry) {
    && got in q && got.dst == dst && now <= got.expire
    && forall e :: e in q && e.dst == dst && now <= e.expire ==> got.expire <= e.expire
  }

  ghost predicate SomeLive(q: seq<QueueEntry>, now: int, dst: Addr) {
    exists e :: e in q && e.dst == dst && now <= e.expire
  }

  lemma FirstIsEarliest(q: seq<QueueEntry>, p: seq<QueueEntry>, now: int, dst: Addr, k: nat)
    requires OldestFirst(p) && forall e :: e in p <==> e in q && now <= e.expire
    requires k <= |p| && (k < |p| ==> p[k].dst == dst) && forall i :: 0 <= i < k ==> p[i].dst != dst
    ensures k < |p| <==> SomeLive(q, now, dst)
    ensures k < |p| ==> Earliest(q, now, dst, p[k])
  {
    forall e | e in q && e.dst == dst && now <= e.expire ensures k < |p| && p[k].expire <= e.expire {
      assert e in p;
      var i :| 0 <= i < |p| && p[i] == e;
    }
    if k < |p| {
      assert p[k] in p;
    }
  }

  lemma WithoutLosesIt(q: seq<QueueEntry>, k: nat)
    requires k < |q| && OnePerPacket(q)
    ensures q[k] !in Without(q, k)
  {
  }

  /** Dequeue hands out the earliest live packet for the destination, exactly when there is one. */
  lemma TakeIsEarliest(maxLen: nat, timeout: int, ops: seq<Op>, now: int, dst: Addr)
    requires maxLen >= 1 && Clock(ops) && forall i :: 0 <= i < |ops| ==> ops[i].now <= now
    ensures var q := Run(maxLen, timeout, ops);
      var r := Do(maxLen, timeout, q, Take(now, dst));
      if SomeLive(q.entries, now, dst) then
        exists got :: r.handed == q.handed + [got] && got !in r.entries && Earliest(q.entries, now, dst, got)
      else r.handed == q.handed
  {
    var q := Run(maxLen, timeout, ops);
    RunIsGood(maxLen, timeout, ops, now);
    TakeFrom(maxLen, timeout, q, now, dst);
  }

  lemma TakeFrom(maxLen: nat, timeout: int, q: Queue, now: int, dst: Addr)
    requires maxLen >= 1 && OldestFirst(q.entries) && OnePerPacket(q.entries)
    ensures var r := Do(maxLen, timeout, q, Take(now, dst));
      if SomeLive(q.entries, now, dst) then
        exists got :: r.handed == q.handed + [got] && got !in r.entries && Earliest(q.entries, now, dst, got)
      else r.handed == q.handed
  {
    LiveMembers(q.entries, now);
    LiveThinned(q.entries, now);
    var p := Live(q.entries, now);
    var k := FirstFor(p, dst);
    FirstIsEarliest(q.entries, p, now, dst, k);
    if k < |p| {
      WithoutLosesIt(p, k);
    }
  }

  /** gone makes room for e: it was first and would have expired first. */
  ghost predicate MakesRoom(live: seq<QueueEntry>, e: QueueEntry, gone: QueueEntry, entries: seq<QueueEntry>) {
    && live + [e] == [gone] + entries
    && forall other :: other in live ==> gone.expire <= other.expire
  }

  lemma PutInto(maxLen: nat, timeout: int, q: Queue, now: int, uid: nat, dst: Addr)
    requires maxLen >= 1
    ensures var live, dead, r := Live(q.entries, now), Dead(q.entries, now), Do(maxLen, timeout, q, Put(now, uid, dst));
      var e := QueueEntry(uid, dst, now + timeout);
      && r.handed == q.handed
      && (Queued(live, uid, dst) ==>
            r.entries == live && r.reported == q.reported + dead && r.accepted == q.accepted)
      && (!Queued(live, uid, dst) ==> r.accepted == q.accepted + [e])
      && (!Queued(live, uid, dst) && |live| < maxLen ==>
            r.entries == live + [e] && r.reported == q.reported + dead)
      && (!Queued(live, uid, dst) && |live| == maxLen && OldestFirst(live) ==>
            r.reported == q.reported + dead + [live[0]] && MakesRoom(live, e, live[0], r.entries))
  {
    var live, r := Live(q.entries, now), Do(maxLen, timeout, q, Put(now, uid, dst));
    if !Queued(live, uid, dst) && |live| == maxLen {
      assert live + [QueueEntry(uid, dst, now + timeout)] == [live[0]] + r.entries;
    }
  }

  /**
   * What Enqueue does in any run: the packet goes in behind the others with its own lifetime, unless it is queued
   * and alive already; and if the live packets fill the queue, the one that would have expired first, no other,
   * makes room and is reported.
   */
  lemma PutDropsOldest(maxLen: nat, timeout: int, ops: seq<Op>, now: int, uid: nat, dst: Addr)
    requires maxLen >= 1 && Clock(ops) && forall i :: 0 <= i < |ops| ==> ops[i].now <= now
    ensures var q := Run(maxLen, timeout, ops);
      var live, dead, r := Live(q.entries, now), Dead(q.entries, now), Do(maxLen, timeout, q, Put(now, uid, dst));
      var e := QueueEntry(uid, dst, now + timeout);
      && |live| <= maxLen && OldestFirst(live) && r.handed == q.handed
      && if Queued(live, uid, dst) then r.entries == live && r.reported == q.reported + dead && r.accepted == q.accepted
         else
           && r.accepted == q.accepted + [e]
           && if |live| < maxLen then r.entries == live + [e] && r.reported == q.reported + dead
              else exists gone :: r.reported == q.reported + dead + [gone] && MakesRoom(live, e, gone, r.entries)
  {
    var q := Run(maxLen, timeout, ops);
    RunIsGood(maxLen, timeout, ops, now);
    GoodPurged(maxLen, q, now + timeout, now);
    hide Do, Run, Live, Dead, Queued, MakesRoom, Conserved;
    PutInto(maxLen, timeout, q, now, uid, dst);
  }

  // ----- the object -----

  class RequestQueue {
    var queue: seq<QueueEntry>
    /** The entries whose error callback has been called, in that order. */
    var reported: seq<QueueEntry>
    const maxLen: nat
    const queueTimeout: int

    constructor (maxLen: nat, routeToQueueTimeout: int)
      ensures queue == [] && reported == []
      ensures this.maxLen == maxLen && queueTimeout == routeToQueueTimeout
    {
      this.maxLen, queueTimeout := maxLen, routeToQueueTimeout;
      queue, reported := [], [];
    }

    function Value(): Queue
      reads this
    {
      Queue(queue, [], [], reported)
    }

    /** The state is the one op leaves, the counting histories aside. */
    ghost predicate Reflects(after: Queue)
      reads this
    {
      queue == after.entries && reported == after.reported
    }

    method Purge(now: int)
      modifies this
      ensures Value() == Purged(old(Value()), now)
    {
      for i := 0 to |queue|
        invariant queue == old(queue) && reported == old(reported) + Dead(queue[..i], now)
      {
        assert queue[..i + 1][..i] == queue[..i];
        if Expired(queue[i], now) {
          reported := reported + [queue[i]];
        }
      }
      assert queue[..|queue|] == queue;
      queue := Live(queue, now);
    }

    method Contains(uid: nat, dst: Addr) returns (r: bool)
      ensures r <==> Queued(queue, uid, dst)
    {
      for i := 0 to |queue|
        invariant forall j :: 0 <= j < i ==> !(queue[j].uid == uid && queue[j].dst == dst)
      {
        if queue[i].uid == uid && queue[i].dst == dst {
          return true;
        }
      }
      return false;
    }

    method Enqueue(uid: nat, dst: Addr, now: int) returns (ok: bool)
      requires maxLen >= 1
      modifies this
      ensures Reflects(Do(maxLen, queueTimeout, old(Value()), Put(now, uid, dst)))
      ensures ok <==> Do(maxLen, queueTimeout, old(Value()), Put(now, uid, dst)).accepted != []
    {
      Purge(now);
      var duplicate := Contains(uid, dst);
      if duplicate {
        return false;
      }
      var entry := QueueEntry(uid, dst, queueTimeout + now);
      if |queue| == maxLen {
        reported := reported + [queue[0]];
        queue := queue[1..];
      }
      queue := queue + [entry];
      return true;
    }

    method Dequeue(dst: Addr, now: int) returns (r: Option<QueueEntry>)
      requires maxLen >= 1
      modifies this
      ensures Reflects(Do(maxLen, queueTimeout, old(Value()), Take(now, dst)))
      ensures Do(maxLen, queueTimeout, old(Value()), Take(now, dst)).handed == if r.Some? then [r.value] else []
    {
      Purge(now);
      var i := 0;
      while i < |queue| && queue[i].dst != dst
        invariant i <= |queue| && forall j :: 0 <= j < i ==> queue[j].dst != dst
      {
        i := i + 1;
      }
      assert i == FirstFor(queue, dst);
      if i == |queue| {
        return None;
      }
      r := Some(queue[i]);
      queue := queue[..i] + queue[i + 1..];
    }

    method DropPacketWithDst(dst: Addr, now: int)
      requires maxLen >= 1
      modifies this
      ensures Reflects(Do(maxLen, queueTimeout, old(Value()), DropFor(now, dst)))
    {
      Purge(now);
      ghost var p := Value();
      for i := 0 to |queue|
        invariant queue == p.entries && reported == p.reported + For(queue[..i], dst)
      {
        assert queue[..i + 1][..i] == queue[..i];
        if queue[i].dst == dst {
          reported := reported + [queue[i]];
        }
      }
      assert queue[..|queue|] == queue;
      queue := NotFor(queue, dst);
    }

    /** Find looks at the stored entries without purging: an expired one still counts. */
    method Find(dst: Addr) returns (r: bool)
      ensures r <==> exists e :: e in queue && e.dst == dst
    {
      for i := 0 to |queue|
        invariant forall j :: 0 <= j < i ==> queue[j].dst != dst
      {
        if queue[i].dst == dst {
          return true;
        }
      }
      return false;
    }

    method GetSize(now: int) returns (size: nat)
      requires maxLen >= 1
      modifies this
      ensures Reflects(Do(maxLen, queueTimeout, old(Value()), Measure(now)))
      ensures size == |queue|
    {
      Purge(now);
      size := |queue|;
    }
  }
}
