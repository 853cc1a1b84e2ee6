/**
 * The originator of route discoveries as an object: it keeps packets in a RequestQueue, starts and retries
 * discoveries and drops what cannot be delivered. Every method is proved to do what RreqRetry says.
 */
module AodvOriginator {
  import opened Words
  import opened Options
  import AodvNode
  import RQ = RequestQueue
  import opened RreqRetry

  lemma {:induction false} SplitConcat(a: seq<RQ.QueueEntry>, b: seq<RQ.QueueEntry>, dst: Addr)
    ensures RQ.For(a + b, dst) == RQ.For(a, dst) + RQ.For(b, dst)
    ensures RQ.NotFor(a + b, dst) == RQ.NotFor(a, dst) + RQ.NotFor(b, dst)
  {
    if b == [] {
      assert a + b == a;
    } else {
      SplitConcat(a, b[..|b| - 1], dst);
      assert (a + b)[..|a + b| - 1] == a + b[..|b| - 1];
    }
  }

  lemma {:induction false} NoneFor(q: seq<RQ.QueueEntry>, dst: Addr)
    requires forall i :: 0 <= i < |q| ==> q[i].dst != dst
    ensures RQ.For(q, dst) == [] && RQ.NotFor(q, dst) == q
  {
    if q != [] {
      var p, e := q[..|q| - 1], q[|q| - 1];
      assert q == p + [e] && e.dst != dst;
      hide RQ.For, RQ.NotFor;
      NoneFor(p, dst);
      Single(e, dst);
      SplitConcat(p, [e], dst);
    }
  }

  lemma Single(e: RQ.QueueEntry, dst: Addr)
    ensures RQ.For([e], dst) == if e.dst == dst then [e] else []
    ensures RQ.NotFor([e], dst) == if e.dst == dst then [] else [e]
  {
    assert [e][..0] == [];
  }

  /** Taking the first packet for dst out takes the head of the packets for dst and nothing else. */
  lemma TakeFirst(q: seq<RQ.QueueEntry>, dst: Addr, k: nat)
    requires k < |q| && q[k].dst == dst && forall i :: 0 <= i < k ==> q[i].dst != dst
    ensures RQ.For(q, dst) == [q[k]] + RQ.For(RQ.Without(q, k), dst)
    ensures RQ.NotFor(q, dst) == RQ.NotFor(RQ.Without(q, k), dst)
  {
    hide RQ.For, RQ.NotFor;
    var front, back := q[..k], q[k + 1..];
    assert q == front + ([q[k]] + back);
    NoneFor(front, dst);
    Single(q[k], dst);
    SplitConcat(front, [q[k]] + back, dst);
    SplitConcat([q[k]], back, dst);
    SplitConcat(front, back, dst);
  }

  lemma {:induction false} NothingLeft(q: seq<RQ.QueueEntry>, dst: Addr)
    requires RQ.For(q, dst) == []
    ensures RQ.NotFor(q, dst) == q
  {
    if q != [] {
      NothingLeft(q[..|q| - 1], dst);
    }
  }

  lemma LiveSnoc(p: seq<RQ.QueueEntry>, e: RQ.QueueEntry, now: int)
    ensures RQ.Live(p + [e], now) == RQ.Live(p, now) + if RQ.Expired(e, now) then [] else [e]
    ensures RQ.Dead(p + [e], now) == RQ.Dead(p, now) + if RQ.Expired(e, now) then [e] else []
  {
    assert (p + [e])[..|p|] == p;
  }

  lemma {:induction false} NothingExpired(q: seq<RQ.QueueEntry>, now: int)
    requires forall i :: 0 <= i < |q| ==> !RQ.Expired(q[i], now)
    ensures RQ.Live(q, now) == q && RQ.Dead(q, now) == []
  {
    if q != [] {
      hide RQ.Live, RQ.Dead, RQ.Expired;
      var p, e := q[..|q| - 1], q[|q| - 1];
      NothingExpired(p, now);
      LiveSnoc(p, e, now);
      assert q == p + [e];
    }
  }

  /** What one Dequeue for dst makes of the live packets. */
  ghost predicate Taken(live: seq<RQ.QueueEntry>, dst: Addr, now: int, r: Option<RQ.QueueEntry>,
                        rest: seq<RQ.QueueEntry>)
  {
    && RQ.Live(rest, now) == rest && RQ.Dead(rest, now) == []
    && RQ.NotFor(rest, dst) == RQ.NotFor(live, dst)
    && RQ.For(live, dst) == (if r.Some? then [r.value] else []) + RQ.For(rest, dst)
    && if r.Some? then |rest| < |live| else RQ.For(live, dst) == [] && rest == live
  }

  lemma OneTaken(q: seq<RQ.QueueEntry>, dst: Addr, now: int)
    ensures var live := RQ.Live(q, now);
      var k := RQ.FirstFor(live, dst);
      if k < |live| then Taken(live, dst, now, Some(live[k]), RQ.Without(live, k))
      else Taken(live, dst, now, None, live)
  {
    hide RQ.For, RQ.NotFor, RQ.Live, RQ.Dead, RQ.FirstFor;
    var live := RQ.Live(q, now);
    var k := RQ.FirstFor(live, dst);
    RQ.LiveMembers(q, now);
    if k < |live| {
      TakeFirst(live, dst, k);
      NothingExpired(RQ.Without(live, k), now);
    } else {
      NoneFor(live, dst);
      NothingExpired(live, now);
    }
  }

  class Originator {
    const config: Config
    var table: map<Addr, Search>
    var timers: map<Addr, int>
    var sent: seq<Sent>
    const queue: RQ.RequestQueue
    /** The packets handed to their forwarding callbacks. */
    var forwarded: seq<RQ.QueueEntry>

    ghost predicate Valid()
      reads this
    {
      queue.maxLen == config.maxLen && queue.queueTimeout == config.queueTimeout && config.maxLen >= 1
    }

    constructor (config: Config)
      requires config.maxLen >= 1
      ensures Valid() && this.config == config && fresh(queue)
      ensures Value() == Node(map[], map[], RQ.Queue([], [], [], []), []) && forwarded == []
    {
      this.config := config;
      table, timers, sent, forwarded := map[], map[], [], [];
      queue := new RQ.RequestQueue(config.maxLen, config.queueTimeout);
    }

    function Value(): Node
      reads this, queue
    {
      Node(table, timers, queue.Value(), sent)
    }

    /** The state is n, the counting histories of the queue aside. */
    ghost predicate Reflects(n: Node)
      reads this, queue
    {
      table == n.table && timers == n.timers && sent == n.sent && queue.Reflects(n.queue)
    }

    method SendRequest(dst: Addr, now: int)
      requires Valid()
      modifies this`table, this`timers, this`sent
      ensures Value() == RreqRetry.SendRequest(config, old(Value()), dst, now)
    {
      if dst in table {
        table := table[dst := table[dst].(flag := AodvNode.IN_SEARCH)];
      } else {
        table := table[dst := Search(AodvNode.IN_SEARCH, 0)];
      }
      sent := sent + [Sent(dst, now)];
      ScheduleRreqRetry(dst, now);
    }

    method ScheduleRreqRetry(dst: Addr, now: int)
      requires dst in table
      modifies this`table, this`timers
      ensures table == old(table)[dst := old(table[dst]).(rreqCnt := Inc8(old(table[dst]).rreqCnt))]
      ensures timers == old(timers)[dst := now + Inc8(old(table[dst]).rreqCnt) * config.netTraversalTime]
    {
      var rt := table[dst];
      rt := rt.(rreqCnt := Inc8(rt.rreqCnt));
      table := table[dst := rt];
      timers := timers[dst := now + rt.rreqCnt * config.netTraversalTime];
    }

    method DeferredRouteOutput(uid: nat, dst: Addr, now: int)
      requires Valid()
      modifies this, queue
      ensures Valid() && Reflects(Deferred(config, old(Value()), uid, dst, now))
      ensures forwarded == old(forwarded)
    {
      var result := queue.Enqueue(uid, dst, now);
      if result {
        if dst !in table || table[dst].flag != AodvNode.IN_SEARCH {
          SendRequest(dst, now);
        }
      }
    }

    /** One Dequeue, in terms of the live packets: the head of those for dst goes, nothing else does. */
    method TakeOne(dst: Addr, now: int) returns (r: Option<RQ.QueueEntry>)
      requires Valid()
      modifies queue
      ensures queue.reported == old(queue.reported) + RQ.Dead(old(queue.queue), now)
      ensures Taken(RQ.Live(old(queue.queue), now), dst, now, r, queue.queue)
    {
      hide RQ.For, RQ.NotFor, RQ.Live, RQ.Dead, RQ.FirstFor, Taken;
      ghost var live, before := RQ.Live(queue.queue, now), queue.Value();
      OneTaken(queue.queue, dst, now);
      r := queue.Dequeue(dst, now);
      ghost var k := RQ.FirstFor(live, dst);
      ghost var after := RQ.Do(config.maxLen, config.queueTimeout, before, RQ.Take(now, dst));
      if k < |live| {
        assert after.handed == [live[k]] && after.entries == RQ.Without(live, k);
        assert r.value == live[k];
      } else {
        assert after.handed == [] && after.entries == live;
      }
    }

    method SendPacketFromQueue(dst: Addr, now: int)
      requires Valid()
      modifies this`forwarded, queue
      ensures Valid() && queue.Reflects(HandOver(old(queue.Value()), dst, now))
      ensures forwarded == old(forwarded) + RQ.For(RQ.Live(old(queue.queue), now), dst)
    {
      hide RQ.For, RQ.NotFor, RQ.Live, RQ.Dead, RQ.FirstFor;
      ghost var p := RQ.Live(queue.queue, now);
      ghost var dead := queue.reported + RQ.Dead(queue.queue, now);
      var r := TakeOne(dst, now);
      if r == None {
        NothingLeft(queue.queue, dst);
      }
      while r.Some?
        invariant queue.reported == dead
        invariant RQ.Live(queue.queue, now) == queue.queue && RQ.Dead(queue.queue, now) == []
        invariant RQ.NotFor(queue.queue, dst) == RQ.NotFor(p, dst)
        invariant forwarded + (if r.Some? then [r.value] else []) + RQ.For(queue.queue, dst)
               == old(forwarded) + RQ.For(p, dst)
        invariant r == None ==> RQ.For(queue.queue, dst) == [] && RQ.NotFor(queue.queue, dst) == queue.queue
        decreases r.Some?, |queue.queue|
      {
        forwarded := forwarded + [r.value];
        r := TakeOne(dst, now);
        if r == None {
          NothingLeft(queue.queue, dst);
        }
      }
    }

    /** The end of RecvReply at the originator; replaced says whether the update rules have taken the offer. */
    method EndSearch(dst: Addr, now: int, replaced: bool)
      requires Valid()
      modifies this, queue
      ensures Valid() && Reflects(Answered(old(Value()), dst, now, replaced))
      ensures forwarded == old(forwarded) + RQ.For(RQ.Live(old(queue.queue), now), dst)
    {
      var searching := dst in table && table[dst].flag == AodvNode.IN_SEARCH;
      if dst !in table || replaced {
        table := table[dst := Search(AodvNode.VALID, 0)];
      }
      if searching {
        table := table[dst := Search(AodvNode.VALID, 0)];
        timers := timers - {dst};
      }
      SendPacketFromQueue(dst, now);
    }

    method RouteRequestTimerExpire(dst: Addr, now: int)
      requires Valid()
      modifies this, queue
      ensures Valid() && Reflects(TimerExpire(config, old(Value()), dst, now))
    {
      var toDst := if dst in table then table[dst] else Search(AodvNode.VALID, 0);
      if dst in table && toDst.flag == AodvNode.VALID {
        SendPacketFromQueue(dst, now);
        return;
      }
      if toDst.rreqCnt == config.rreqRetries {
        timers := timers - {dst};
        table := table - {dst};
        queue.DropPacketWithDst(dst, now);
        return;
      }
      if toDst.flag == AodvNode.IN_SEARCH {
        SendRequest(dst, now);
      } else {
        timers := timers - {dst};
        table := table - {dst};
        queue.DropPacketWithDst(dst, now);
      }
    }
  }
}
