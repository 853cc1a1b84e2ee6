/** The duplicate detection cache of aodv-id-cache.cc, and the call history it stands for. */
module IdCache {
  import opened Sequences
  import opened Words

  datatype UniqueId = UniqueId(context: Addr, id: u32, expire: int)

  /** What std::remove_if with IsExpired leaves. */
  function Purged(ids: seq<UniqueId>, now: int): (r: seq<UniqueId>)
    ensures forall u :: u in r <==> u in ids && u.expire >= now
  {
    if ids == [] then []
    else
      var n := |ids| - 1;
      Purged(ids[..n], now) + if ids[n].expire < now then [] else [ids[n]]
  }

  predicate Holds(ids: seq<UniqueId>, addr: Addr, id: u32) {
    exists i :: 0 <= i < |ids| && ids[i].context == addr && ids[i].id == id
  }

  class Cache {
    var idCache: seq<UniqueId>
    var lifetime: int

    constructor (lifetime: int)
      ensures idCache == [] && this.lifetime == lifetime
    {
      idCache, this.lifetime := [], lifetime;
    }

    method Purge(now: int)
      modifies this`idCache
      ensures idCache == Purged(old(idCache), now)
    {
      idCache := Purged(idCache, now);
    }

    /** The search loop of IsDuplicate. */
    method Find(addr: Addr, id: u32) returns (r: bool)
      ensures r <==> Holds(idCache, addr, id)
    {
      for i := 0 to |idCache|
        invariant forall j :: 0 <= j < i ==> !(idCache[j].context == addr && idCache[j].id == id)
      {
        if idCache[i].context == addr && idCache[i].id == id {
          return true;
        }
      }
      return false;
    }

    method IsDuplicate(addr: Addr, id: u32, now: int) returns (r: bool)
      modifies this`idCache
      ensures r == Duplicate(Memory(old(idCache), lifetime), now, addr, id)
      ensures Memory(idCache, lifetime) == After(Memory(old(idCache), lifetime), Ask(now, addr, id))
    {
      Purge(now);
      r := Find(addr, id);
      if !r {
        idCache := idCache + [UniqueId(addr, id, lifetime + now)];
      }
    }

    method GetSize(now: int) returns (size: nat)
      modifies this`idCache
      ensures size == |Purged(old(idCache), now)|
      ensures Memory(idCache, lifetime) == After(Memory(old(idCache), lifetime), Count(now))
    {
      Purge(now);
      size := |idCache|;
    }

    method SetLifetime(lifetime: int)
      modifies this`lifetime
      ensures Memory(idCache, this.lifetime) == After(Memory(idCache, old(this.lifetime)), Change(lifetime))
    {
      this.lifetime := lifetime;
    }
  }

  // ----- runs of the cache -----

  datatype Memory = Memory(ids: seq<UniqueId>, lifetime: int)

  datatype Call = Ask(now: int, addr: Addr, id: u32) | Count(now: int) | Change(lifetime: int)

  predicate Duplicate(m: Memory, now: int, addr: Addr, id: u32) {
    Holds(Purged(m.ids, now), addr, id)
  }

  function After(m: Memory, c: Call): Memory {
    match c
    case Ask(now, addr, id) =>
      var live := Purged(m.ids, now);
      m.(ids := if Holds(live, addr, id) then live else live + [UniqueId(addr, id, m.lifetime + now)])
    case Count(now) => m.(ids := Purged(m.ids, now))
    case Change(lifetime) => m.(lifetime := lifetime)
  }

  function Run(lifetime: int, calls: seq<Call>): Memory {
    if calls == [] then Memory([], lifetime)
    else After(Run(lifetime, calls[..|calls| - 1]), calls[|calls| - 1])
  }

  /** No call is timed after now, and none is timed before an earlier one. */
  ghost predicate ClockUpTo(calls: seq<Call>, now: int) {
    && (forall i :: 0 <= i < |calls| && !calls[i].Change? ==> calls[i].now <= now)
    && (forall i, j :: 0 <= i < j < |calls| && !calls[i].Change? && !calls[j].Change? ==> calls[i].now <= calls[j].now)
  }

  /** The i-th call asked for u's pair, was told no, and u's expiry is its time plus the lifetime then in force. */
  ghost predicate Granted(lifetime: int, calls: seq<Call>, i: nat, u: UniqueId) {
    && i < |calls| && calls[i].Ask? && calls[i].addr == u.context && calls[i].id == u.id
    && !Duplicate(Run(lifetime, calls[..i]), calls[i].now, u.context, u.id)
    && u.expire == Run(lifetime, calls[..i]).lifetime + calls[i].now
  }

  ghost predicate GrantedOnce(lifetime: int, calls: seq<Call>, u: UniqueId) {
    exists i: nat :: Granted(lifetime, calls, i, u)
  }

  /** What the next call adds to the history. */
  lemma GrantedNext(lifetime: int, calls: seq<Call>, c: Call, u: UniqueId)
    ensures GrantedOnce(lifetime, calls + [c], u) <==>
      || GrantedOnce(lifetime, calls, u)
      || (c.Ask? && u == UniqueId(c.addr, c.id, Run(lifetime, calls).lifetime + c.now)
          && !Duplicate(Run(lifetime, calls), c.now, c.addr, c.id))
  {
    var more := calls + [c];
    assert more[..|calls|] == calls;
    forall i: nat | i < |calls| ensures Granted(lifetime, calls, i, u) <==> Granted(lifetime, more, i, u) {
      assert more[..i] == calls[..i];
    }
    if GrantedOnce(lifetime, calls, u) {
      var i: nat :| Granted(lifetime, calls, i, u);
      assert Granted(lifetime, more, i, u);
    }
    assert Granted(lifetime, more, |calls|, u) <==>
      c.Ask? && u == UniqueId(c.addr, c.id, Run(lifetime, calls).lifetime + c.now)
      && !Duplicate(Run(lifetime, calls), c.now, c.addr, c.id);
  }

  /** The cache holds exactly the granted entries that can still be live. */
  lemma {:induction false} CacheIsHistory(lifetime: int, calls: seq<Call>, now: int, u: UniqueId)
    requires ClockUpTo(calls, now) && u.expire >= now
    ensures u in Run(lifetime, calls).ids <==> GrantedOnce(lifetime, calls, u)
  {
    if calls != [] {
      var n := |calls| - 1;
      assert calls == calls[..n] + [calls[n]];
      CacheIsHistory(lifetime, calls[..n], now, u);
      GrantedNext(lifetime, calls[..n], calls[n], u);
    } else {
      assert forall i: nat :: !Granted(lifetime, calls, i, u);
    }
  }

  /**
   * IsDuplicate answers yes exactly when some earlier call for the same pair was answered no and
   * the lifetime that was in force then has not run out.
   */
  lemma DuplicateIffGranted(lifetime: int, calls: seq<Call>, now: int, addr: Addr, id: u32)
    requires ClockUpTo(calls, now)
    ensures Duplicate(Run(lifetime, calls), now, addr, id) <==>
      exists i: nat, t: int :: t >= now && Granted(lifetime, calls, i, UniqueId(addr, id, t))
  {
    var live := Purged(Run(lifetime, calls).ids, now);
    if Holds(live, addr, id) {
      var k :| 0 <= k < |live| && live[k].context == addr && live[k].id == id;
      assert live[k] in live;
      CacheIsHistory(lifetime, calls, now, live[k]);
      var i: nat :| Granted(lifetime, calls, i, live[k]);
      assert Granted(lifetime, calls, i, UniqueId(addr, id, live[k].expire));
    }
    if i: nat, t: int :| t >= now && Granted(lifetime, calls, i, UniqueId(addr, id, t)) {
      var u := UniqueId(addr, id, t);
      CacheIsHistory(lifetime, calls, now, u);
      assert u in live;
    }
  }

  // ----- the size -----

  ghost predicate OnePerPair(ids: seq<UniqueId>) {
    forall i, j :: 0 <= i < j < |ids| ==> (ids[i].context, ids[i].id) != (ids[j].context, ids[j].id)
  }

  ghost function Pairs(ids: seq<UniqueId>): set<(Addr, u32)> {
    set u | u in ids :: (u.context, u.id)
  }

  lemma {:induction false} PurgedOnePerPair(ids: seq<UniqueId>, now: int)
    requires OnePerPair(ids)
    ensures OnePerPair(Purged(ids, now))
  {
    if ids != [] {
      var n := |ids| - 1;
      PurgedOnePerPair(ids[..n], now);
      var rest := Purged(ids[..n], now);
      forall i | 0 <= i < |rest| ensures (rest[i].context, rest[i].id) != (ids[n].context, ids[n].id) {
        assert rest[i] in ids[..n];
      }
    }
  }

  lemma {:induction false} RunOnePerPair(lifetime: int, calls: seq<Call>)
    ensures OnePerPair(Run(lifetime, calls).ids)
  {
    if calls != [] {
      var n := |calls| - 1;
      RunOnePerPair(lifetime, calls[..n]);
      if !calls[n].Change? {
        PurgedOnePerPair(Run(lifetime, calls[..n]).ids, calls[n].now);
      }
    }
  }

  lemma {:induction false} SizeIsPairs(ids: seq<UniqueId>)
    requires OnePerPair(ids)
    ensures |ids| == |Pairs(ids)|
  {
    if ids == [] {
      assert Pairs(ids) == {};
    } else {
      var n := |ids| - 1;
      SizeIsPairs(ids[..n]);
      assert Pairs(ids) == Pairs(ids[..n]) + {(ids[n].context, ids[n].id)};
      assert (ids[n].context, ids[n].id) !in Pairs(ids[..n]);
    }
  }

  /** GetSize counts the pairs whose grant is still live. */
  lemma SizeIsLivePairs(lifetime: int, calls: seq<Call>, now: int, live: set<(Addr, u32)>)
    requires ClockUpTo(calls, now)
    requires forall addr: Addr, id: u32 :: (addr, id) in live <==>
      exists i: nat, t: int :: t >= now && Granted(lifetime, calls, i, UniqueId(addr, id, t))
    ensures |Purged(Run(lifetime, calls).ids, now)| == |live|
  {
    var ids := Purged(Run(lifetime, calls).ids, now);
    RunOnePerPair(lifetime, calls);
    PurgedOnePerPair(Run(lifetime, calls).ids, now);
    SizeIsPairs(ids);
    forall addr: Addr, id: u32 ensures (addr, id) in live <==> (addr, id) in Pairs(ids) {
      DuplicateIffGranted(lifetime, calls, now, addr, id);
      if (addr, id) in Pairs(ids) {
        var u :| u in ids && (u.context, u.id) == (addr, id);
        var k :| 0 <= k < |ids| && ids[k] == u;
      }
    }
    forall p ensures p in live <==> p in Pairs(ids) {
      assert p == (p.0, p.1);
    }
    assert live == Pairs(ids);
  }
}
