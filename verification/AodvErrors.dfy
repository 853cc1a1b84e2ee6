/** The routing table of aodv-rtable.cc, with lifetimes and precursors. */
module AodvTable {
  import opened Words
  import opened Options
  import opened AodvNode

  /** expire is an absolute time; for an invalid entry it is the time of deletion. */
  datatype Entry = Entry(route: Route, expire: int, precursors: seq<Addr>, rreqCnt: byte)

  type Table = map<Addr, Entry>

  predicate Outdated(e: Entry, now: int) { e.expire - now < 0 }

  function Invalidated(e: Entry, now: int, badLinkLifetime: int): Entry {
    e.(route := e.route.(flag := INVALID), expire := badLinkLifetime + now, rreqCnt := 0)
  }

  /** Outdated invalid entries go, outdated valid ones become invalid, searches stay. */
  function Purged(t: Table, now: int, badLinkLifetime: int): Table {
    map k | k in t && !(Outdated(t[k], now) && t[k].route.flag == INVALID) ::
      if Outdated(t[k], now) && t[k].route.flag == VALID then Invalidated(t[k], now, badLinkLifetime) else t[k]
  }

  function Via(t: Table, nextHop: Addr): map<Addr, u32> {
    map k | k in t && t[k].route.nextHop == nextHop :: t[k].route.seqNo
  }

  function InvalidatedAll(t: Table, dsts: set<Addr>, now: int, badLinkLifetime: int): Table {
    map k | k in t ::
      if k in dsts && t[k].route.flag == VALID then Invalidated(t[k], now, badLinkLifetime) else t[k]
  }

  /** Purging twice at one instant is purging once. */
  lemma PurgedTwice(t: Table, now: int, badLinkLifetime: int)
    requires badLinkLifetime >= 0
    ensures Purged(Purged(t, now, badLinkLifetime), now, badLinkLifetime) == Purged(t, now, badLinkLifetime)
  {
  }

  /** What purging leaves: every entry but the outdated INVALID ones, and no VALID one that is outdated. */
  lemma PurgeLeaves(t: Table, now: int, badLinkLifetime: int, k: Addr)
    requires badLinkLifetime >= 0
    ensures var p := Purged(t, now, badLinkLifetime);
      && (k in p <==> k in t && (t[k].expire >= now || t[k].route.flag != INVALID))
      && (k in p ==>
            && (p[k].expire >= now || p[k].route.flag == IN_SEARCH)
            && (t[k].expire >= now || t[k].route.flag != VALID ==> p[k] == t[k])
            && p[k].route.(flag := t[k].route.flag) == t[k].route && p[k].precursors == t[k].precursors)
  {
  }

  /**
   * The life of an unused VALID entry: the first purge after its lifetime makes it INVALID for badLinkLifetime,
   * and it is forgotten by the first purge after that, not earlier.
   */
  lemma EntryLife(t: Table, k: Addr, first: int, later: int, badLinkLifetime: int)
    requires badLinkLifetime >= 0 && k in t && t[k].route.flag == VALID && t[k].expire < first <= later
    ensures var once := Purged(t, first, badLinkLifetime);
      var twice := Purged(once, later, badLinkLifetime);
      && k in once && once[k].route == t[k].route.(flag := INVALID) && once[k].rreqCnt == 0
      && (k in twice <==> later <= first + badLinkLifetime)
      && (k in twice ==> twice[k] == once[k])
  {
  }

  class RoutingTable {
    var entries: Table
    const badLinkLifetime: int

    constructor (badLinkLifetime: int)
      ensures entries == map[] && this.badLinkLifetime == badLinkLifetime
    {
      entries, this.badLinkLifetime := map[], badLinkLifetime;
    }

    method Purge(now: int)
      modifies this
      ensures entries == Purged(old(entries), now, badLinkLifetime)
    {
      var before := entries;
      var pending := entries.Keys;
      while pending != {}
        invariant pending <= before.Keys
        invariant forall k :: k in pending ==> k in entries && entries[k] == before[k]
        invariant forall k :: k in before && k !in pending ==>
          if Outdated(before[k], now) && before[k].route.flag == INVALID then k !in entries
          else k in entries && entries[k] == Purged(before, now, badLinkLifetime)[k]
        invariant entries.Keys <= before.Keys
        decreases pending
      {
        var i :| i in pending;
        pending := pending - {i};
        if Outdated(entries[i], now) {
          if entries[i].route.flag == INVALID {
            entries := entries - {i};
          } else if entries[i].route.flag == VALID {
            entries := entries[i := Invalidated(entries[i], now, badLinkLifetime)];
          }
        }
      }
      assert entries.Keys == Purged(before, now, badLinkLifetime).Keys;
    }

    method LookupRoute(id: Addr, now: int) returns (rt: Option<Entry>)
      modifies this
      ensures entries == Purged(old(entries), now, badLinkLifetime)
      ensures rt == if id in entries then Some(entries[id]) else None
    {
      Purge(now);
      rt := if id in entries then Some(entries[id]) else None;
    }

    method GetListOfDestinationWithNextHop(nextHop: Addr, now: int) returns (unreachable: map<Addr, u32>)
      modifies this
      ensures entries == Purged(old(entries), now, badLinkLifetime)
      ensures unreachable == Via(entries, nextHop)
    {
      Purge(now);
      unreachable := map[];
      var pending := entries.Keys;
      while pending != {}
        invariant pending <= entries.Keys && entries == Purged(old(entries), now, badLinkLifetime)
        invariant unreachable.Keys == Via(entries, nextHop).Keys - pending
        invariant forall k :: k in unreachable ==> unreachable[k] == entries[k].route.seqNo
        decreases pending
      {
        var i :| i in pending;
        pending := pending - {i};
        if entries[i].route.nextHop == nextHop {
          unreachable := unreachable[i := entries[i].route.seqNo];
        }
      }
    }

    method InvalidateRoutesWithDst(unreachable: set<Addr>, now: int)
      modifies this
      ensures entries == InvalidatedAll(Purged(old(entries), now, badLinkLifetime), unreachable, now, badLinkLifetime)
    {
      Purge(now);
      var before := entries;
      var pending := entries.Keys;
      while pending != {}
        invariant pending <= before.Keys && entries.Keys == before.Keys
        invariant forall k :: k in pending ==> entries[k] == before[k]
        invariant forall k :: k in before && k !in pending ==>
          entries[k] == InvalidatedAll(before, unreachable, now, badLinkLifetime)[k]
        decreases pending
      {
        var i :| i in pending;
        pending := pending - {i};
        if i in unreachable && entries[i].route.flag == VALID {
          entries := entries[i := Invalidated(entries[i], now, badLinkLifetime)];
        }
      }
    }
  }
}

/** Route errors: RecvError of aodv-routing-protocol.cc. */
module AodvErrors {
  import opened Words
  import opened Options
  import opened AodvNode
  import opened AodvPacket
  import opened AodvHeaders
  import opened AodvTable
  import opened Sequences

  /** The listed destinations that are among keys, with the listed sequence numbers. */
  function Affected(m: Unreachable, keys: set<Addr>): (r: Unreachable)
    ensures forall i :: 0 <= i < |r| ==> r[i] in m && r[i].0 in keys
    ensures |r| <= |m|
  {
    if m == [] then []
    else
      var n := |m| - 1;
      var rest := Affected(m[..n], keys);
      assert forall i :: 0 <= i < |rest| ==> rest[i].0 < m[n].0;
      if m[n].0 in keys then rest + [m[n]] else rest
  }

  function KeysOf(m: seq<(Addr, u32)>): set<Addr> {
    set i | 0 <= i < |m| :: m[i].0
  }

  /** GetPrecursors: append those not yet in the list, one after the other. */
  function Merged(prec: seq<Addr>, more: seq<Addr>): seq<Addr> {
    if more == [] then prec
    else
      var m := |more| - 1;
      var before := Merged(prec, more[..m]);
      if more[m] in before then before else before + [more[m]]
  }

  function PrecursorsOf(t: Table, m: seq<(Addr, u32)>): seq<Addr> {
    if m == [] then []
    else
      var n := |m| - 1;
      var before := PrecursorsOf(t, m[..n]);
      if m[n].0 in t then Merged(before, t[m[n].0].precursors) else before
  }

  /** Merging gives the union, and nobody twice. */
  lemma {:induction false} MergedExact(prec: seq<Addr>, more: seq<Addr>)
    requires Distinct(prec)
    ensures Distinct(Merged(prec, more))
    ensures forall x :: x in Merged(prec, more) <==> x in prec || x in more
  {
    if more != [] {
      var m := |more| - 1;
      MergedExact(prec, more[..m]);
      assert more == more[..m] + [more[m]];
    }
  }

  /** x is a precursor of an entry for a destination listed in m. */
  predicate Precursor(t: Table, m: seq<(Addr, u32)>, x: Addr) {
    exists i :: 0 <= i < |m| && m[i].0 in t && x in t[m[i].0].precursors
  }

  /** A RERR for the destinations in m is for exactly the precursors of their entries, each once. */
  lemma {:induction false} PrecursorsExact(t: Table, m: seq<(Addr, u32)>)
    ensures Distinct(PrecursorsOf(t, m))
    ensures forall x :: x in PrecursorsOf(t, m) <==> Precursor(t, m, x)
  {
    hide Merged;
    if m != [] {
      var n := |m| - 1;
      PrecursorsExact(t, m[..n]);
      if m[n].0 in t {
        MergedExact(PrecursorsOf(t, m[..n]), t[m[n].0].precursors);
      }
      forall x ensures x in PrecursorsOf(t, m) <==> Precursor(t, m, x) {
        PrecursorSnoc(t, m, x);
      }
    }
  }

  lemma PrecursorSnoc(t: Table, m: seq<(Addr, u32)>, x: Addr)
    requires m != []
    ensures var n := |m| - 1;
      Precursor(t, m, x) <==> Precursor(t, m[..n], x) || (m[n].0 in t && x in t[m[n].0].precursors)
  {
    var n := |m| - 1;
    if i :| 0 <= i < n && m[..n][i].0 in t && x in t[m[..n][i].0].precursors {
      assert m[i] == m[..n][i];
    }
    if i :| 0 <= i < |m| && m[i].0 in t && x in t[m[i].0].precursors && i < n {
      assert m[..n][i] == m[i];
    }
  }

  lemma {:induction false} AffectedExact(m: Unreachable, keys: set<Addr>, p: (Addr, u32))
    ensures p in Affected(m, keys) <==> p in m && p.0 in keys
  {
    if m != [] {
      AffectedExact(m[..|m| - 1], keys, p);
      assert m == m[..|m| - 1] + [m[|m| - 1]];
    }
  }

  /** What RecvError does to the entry for k: t0 is the table after purging, t1 the table at the end. */
  lemma ErrorExact(t0: Table, h: RerrHeader, src: Addr, now: int, badLinkLifetime: int, k: Addr)
    requires k in t0
    ensures var hit := KeysOf(Affected(h.unreachable, Via(t0, src).Keys));
      var t1 := InvalidatedAll(t0, hit, now, badLinkLifetime);
      && k in t1
      && (t1[k].route.flag == INVALID <==>
            || t0[k].route.flag == INVALID
            || (t0[k].route.flag == VALID && HasKey(h.unreachable, k) && t0[k].route.nextHop == src))
      && (t0[k].route.flag == IN_SEARCH ==> t1[k] == t0[k])
      && t1[k].route.seqNo == t0[k].route.seqNo && t1[k].route.nextHop == t0[k].route.nextHop
  {
    var keys := Via(t0, src).Keys;
    var u := Affected(h.unreachable, keys);
    if HasKey(h.unreachable, k) && k in keys {
      var i :| 0 <= i < |h.unreachable| && h.unreachable[i].0 == k;
      AffectedExact(h.unreachable, keys, h.unreachable[i]);
      var j :| 0 <= j < |u| && u[j] == h.unreachable[i];
      assert u[j].0 in KeysOf(u);
    }
    if k in KeysOf(u) {
      var j :| 0 <= j < |u| && u[j].0 == k;
      var i :| 0 <= i < |h.unreachable| && h.unreachable[i] == u[j];
    }
  }

  lemma NoPrecursors(t: Table, m: seq<(Addr, u32)>)
    requires m == []
    ensures PrecursorsOf(t, m) == []
  {
  }

  lemma PrecursorsNext(t: Table, m: seq<(Addr, u32)>, i: nat)
    requires i < |m|
    ensures var before := PrecursorsOf(t, m[..i]);
      PrecursorsOf(t, m[..i + 1]) == if m[i].0 in t then Merged(before, t[m[i].0].precursors) else before
  {
    hide Merged;
    assert m[..i + 1][..i] == m[..i];
  }

  class ErrorHandler {
    const table: RoutingTable
    /** The calls of SendRerrMessage: the RERR and the precursors it is for. */
    var sent: seq<(RerrHeader, seq<Addr>)>

    constructor (table: RoutingTable)
      ensures this.table == table && sent == []
    {
      this.table, sent := table, [];
    }

    /** The loop that takes destinations out of the received header and keeps those routed via its sender. */
    method CollectUnreachable(rerr: Rerr, dstWithNextHopSrc: map<Addr, u32>) returns (unreachable: Unreachable)
      modifies rerr
      ensures unreachable == Affected(old(rerr.unreachableDstSeqNo), dstWithNextHopSrc.Keys)
      ensures rerr.Value() == old(rerr.Value()).(unreachable := [])
    {
      unreachable := [];
      ghost var all, i := rerr.unreachableDstSeqNo, 0;
      var un := rerr.RemoveUnDestination();
      while un.Some?
        invariant 0 <= i <= |all|
        invariant if un.Some? then i < |all| && un.value == all[i] && rerr.unreachableDstSeqNo == all[i + 1..]
                  else i == |all| && rerr.unreachableDstSeqNo == []
        invariant rerr.flag == old(rerr.flag) && rerr.reserved == old(rerr.reserved)
        invariant unreachable == Affected(all[..i], dstWithNextHopSrc.Keys)
        decreases |all| - i
      {
        AffectedNext(all, i, dstWithNextHopSrc.Keys);
        if un.value.0 in dstWithNextHopSrc {
          unreachable := Insert(unreachable, un.value.0, un.value.1);
        }
        un := rerr.RemoveUnDestination();
        i := i + 1;
      }
      assert all[..i] == all;
    }

    method GetPrecursors(e: Entry, prec: seq<Addr>) returns (r: seq<Addr>)
      ensures r == Merged(prec, e.precursors)
    {
      r := prec;
      for i := 0 to |e.precursors|
        invariant r == Merged(prec, e.precursors[..i])
      {
        assert e.precursors[..i + 1][..i] == e.precursors[..i];
        if e.precursors[i] !in r {
          r := r + [e.precursors[i]];
        }
      }
      assert e.precursors[..|e.precursors|] == e.precursors;
    }

    /** One turn of the loop of Rebuild: back into the header, and the precursors of its entry are merged. */
    method PutBack(rerr: Rerr, dst: Addr, seqNo: u32, now: int, prec: seq<Addr>) returns (precursors: seq<Addr>)
      requires DestCount(rerr.Value()) < 255
      requires Purged(table.entries, now, table.badLinkLifetime) == table.entries
      modifies table, rerr`unreachableDstSeqNo
      ensures table.entries == old(table.entries)
      ensures rerr.unreachableDstSeqNo == Insert(old(rerr.unreachableDstSeqNo), dst, seqNo)
      ensures precursors ==
        if dst in table.entries then Merged(prec, table.entries[dst].precursors) else prec
    {
      hide Insert, Merged, Purged;
      precursors := prec;
      var _ := rerr.AddUnDestination(dst, seqNo);
      var toDst := table.LookupRoute(dst, now);
      if toDst.Some? {
        precursors := GetPrecursors(toDst.value, precursors);
      }
    }

    /** The loop that fills the emptied header again; AddUnDestination never meets its limit. */
    method Rebuild(rerr: Rerr, unreachable: Unreachable, now: int) returns (precursors: seq<Addr>)
      requires |unreachable| < TWO_8 && rerr.unreachableDstSeqNo == []
      requires Purged(table.entries, now, table.badLinkLifetime) == table.entries
      modifies table, rerr
      ensures table.entries == old(table.entries)
      ensures rerr.Value() == old(rerr.Value()).(unreachable := unreachable)
      ensures precursors == PrecursorsOf(table.entries, unreachable)
    {
      hide Insert, Merged, Purged, PrecursorsOf;
      precursors := [];
      NoPrecursors(table.entries, unreachable[..0]);
      for i := 0 to |unreachable|
        invariant table.entries == old(table.entries)
        invariant rerr.unreachableDstSeqNo == unreachable[..i]
        invariant rerr.flag == old(rerr.flag) && rerr.reserved == old(rerr.reserved)
        invariant precursors == PrecursorsOf(table.entries, unreachable[..i])
      {
        var (dst, seqNo) := unreachable[i];
        InsertLast(unreachable[..i], dst, seqNo);
        PrecursorsNext(table.entries, unreachable, i);
        precursors := PutBack(rerr, dst, seqNo, now, precursors);
        assert rerr.unreachableDstSeqNo == unreachable[..i + 1];
      }
      assert unreachable[..|unreachable|] == unreachable;
    }

    /**
     * Invalidates exactly the valid entries that the RERR lists and that are routed via its sender, and passes
     * the same list on, with the received sequence numbers, to the precursors of those entries.
     */
    method RecvError(rerr: Rerr, src: Addr, now: int)
      requires |rerr.unreachableDstSeqNo| < TWO_8 && table.badLinkLifetime >= 0
      modifies this`sent, table, rerr
      ensures var h, t0 := old(rerr.Value()), Purged(old(table.entries), now, table.badLinkLifetime);
        var u := Affected(h.unreachable, Via(t0, src).Keys);
        && table.entries == InvalidatedAll(t0, KeysOf(u), now, table.badLinkLifetime)
        && sent == old(sent) + (if u == [] then [] else [(h.(unreachable := u), PrecursorsOf(t0, u))])
        && Distinct(PrecursorsOf(t0, u)) && forall x :: x in PrecursorsOf(t0, u) <==> Precursor(t0, u, x)
    {
      hide Purged, Via, InvalidatedAll, Affected, PrecursorsOf, Precursor;
      var dstWithNextHopSrc := table.GetListOfDestinationWithNextHop(src, now);
      PurgedTwice(old(table.entries), now, table.badLinkLifetime);
      var unreachable := CollectUnreachable(rerr, dstWithNextHopSrc);
      var precursors := Rebuild(rerr, unreachable, now);
      if DestCount(rerr.Value()) != 0 {
        sent := sent + [(rerr.Value(), precursors)];
      }
      PrecursorsExact(table.entries, unreachable);
      table.InvalidateRoutesWithDst(KeysOf(unreachable), now);
    }
  }

  lemma AffectedNext(m: Unreachable, i: nat, keys: set<Addr>)
    requires i < |m|
    ensures var before, after := Affected(m[..i], keys), Affected(m[..i + 1], keys);
      after == if m[i].0 in keys then Insert(before, m[i].0, m[i].1) else before
  {
    hide Insert;
    assert m[..i + 1][..i] == m[..i];
    var before := Affected(m[..i], keys);
    if before != [] {
      assert before[|before| - 1] in m[..i];
    }
    InsertLast(before, m[i].0, m[i].1);
  }
}
