/**
 * How RecvReply ranks the RREPs it sees for one destination: sequence numbers compared by their wrapping
 * signed difference, then hop counts.
 */
module ReplyOrder {
  import opened Words
  import opened Options
  import opened AodvNode

  /** Position of a sequence number in the half circle that starts at base. */
  function Offset(base: u32, s: u32): nat { (s - base) % TWO_32 }

  predicate InWindow(base: u32, s: u32) { Offset(base, s) < TWO_31 }

  /** Inside one window the wrapping comparison is the order of the positions. */
  lemma WindowOrder(base: u32, a: u32, b: u32)
    requires InWindow(base, a) && InWindow(base, b)
    ensures SignedDiff(a, b) == Offset(base, a) - Offset(base, b)
    ensures SignedDiff(a, b) > 0 <==> Offset(base, a) > Offset(base, b)
    ensures a == b <==> Offset(base, a) == Offset(base, b)
  {
  }

  /** A strict total order: irreflexive, transitive, and any two different numbers are ranked. */
  lemma StrictTotalOrder(base: u32, a: u32, b: u32, c: u32)
    requires InWindow(base, a) && InWindow(base, b) && InWindow(base, c)
    ensures !(SignedDiff(a, a) > 0)
    ensures SignedDiff(a, b) > 0 && SignedDiff(b, c) > 0 ==> SignedDiff(a, c) > 0
    ensures a != b ==> (SignedDiff(a, b) > 0 <==> !(SignedDiff(b, a) > 0))
  {
    WindowOrder(base, a, b);
    WindowOrder(base, b, c);
    WindowOrder(base, a, c);
    WindowOrder(base, b, a);
  }

  /** Fresher, or as fresh and shorter. */
  predicate Better(base: u32, a: Route, b: Route) {
    || Offset(base, a.seqNo) > Offset(base, b.seqNo)
    || (a.seqNo == b.seqNo && a.hop < b.hop)
  }

  predicate Live(e: Route) { e.validSeqNo && e.flag == VALID }

  datatype Heard = Heard(rrep: Rrep, sender: Addr)

  /** The entry a heard RREP proposes. */
  function Offer(h: Heard): Route {
    Route(true, h.rrep.dstSeqno, Inc8(h.rrep.hop), h.sender, VALID)
  }

  /** RREPs for dst that some other node asked for. */
  predicate Foreign(self: Addr, dst: Addr, h: Heard) {
    h.rrep.dst == dst && h.rrep.origin != dst && h.rrep.origin != self
  }

  function HandleAll(n: NodeState, hs: seq<Heard>): NodeState {
    if hs == [] then n
    else
      var m := |hs| - 1;
      RecvReply(HandleAll(n, hs[..m]), hs[m].rrep, hs[m].sender).node
  }

  ghost predicate Hears(n: NodeState, dst: Addr, base: u32, hs: seq<Heard>) {
    && dst in n.table && Live(n.table[dst]) && InWindow(base, n.table[dst].seqNo)
    && forall i :: 0 <= i < |hs| ==> Foreign(n.addr, dst, hs[i]) && InWindow(base, hs[i].rrep.dstSeqno)
  }

  /** One RREP either leaves the entry as it is or replaces it by something strictly better. */
  lemma OneReply(base: u32, e: Route, o: Route)
    requires Live(e) && Live(o) && InWindow(base, e.seqNo) && InWindow(base, o.seqNo)
    ensures ReplyRule(e, o) == if Better(base, o, e) then o else e
  {
    WindowOrder(base, o.seqNo, e.seqNo);
  }

  lemma {:induction false} HandledInOrder(n: NodeState, dst: Addr, base: u32, hs: seq<Heard>)
    requires Hears(n, dst, base, hs)
    ensures HandleAll(n, hs).addr == n.addr && Hears(HandleAll(n, hs), dst, base, [])
    ensures hs != [] ==>
      var m := |hs| - 1;
      var before := HandleAll(n, hs[..m]);
      && dst in before.table
      && HandleAll(n, hs).table[dst]
         == if Better(base, Offer(hs[m]), before.table[dst]) then Offer(hs[m]) else before.table[dst]
  {
    if hs != [] {
      var m := |hs| - 1;
      HandledInOrder(n, dst, base, hs[..m]);
      assert Foreign(n.addr, dst, hs[m]);
      OneReply(base, HandleAll(n, hs[..m]).table[dst], Offer(hs[m]));
    }
  }

  /** The entry never gets worse: later it is the same entry or a strictly better one. */
  lemma {:induction false} NeverWorse(n: NodeState, dst: Addr, base: u32, hs: seq<Heard>, i: nat)
    requires Hears(n, dst, base, hs) && i <= |hs|
    ensures Hears(n, dst, base, hs[..i])
    ensures Hears(HandleAll(n, hs[..i]), dst, base, []) && Hears(HandleAll(n, hs), dst, base, [])
    ensures var early, late := HandleAll(n, hs[..i]).table[dst], HandleAll(n, hs).table[dst];
      late == early || Better(base, late, early)
    decreases |hs| - i
  {
    hide HandleAll, Foreign, InWindow, Offset, Live;
    HandledInOrder(n, dst, base, hs[..i]);
    HandledInOrder(n, dst, base, hs);
    if i == |hs| {
      assert hs[..i] == hs;
    } else {
      NeverWorse(n, dst, base, hs, i + 1);
      HandledInOrder(n, dst, base, hs[..i + 1]);
      assert hs[..i + 1][..i] == hs[..i];
    }
  }

  /**
   * Whatever the order of the RREPs, the node ends up with the best of everything it had and heard:
   * a maximum in (sequence number, fewer hops).
   */
  lemma {:induction false} BestOfAll(n: NodeState, dst: Addr, base: u32, hs: seq<Heard>)
    requires Hears(n, dst, base, hs)
    ensures dst in HandleAll(n, hs).table
    ensures var final := HandleAll(n, hs).table[dst];
      && (final == n.table[dst] || exists i :: 0 <= i < |hs| && final == Offer(hs[i]))
      && !Better(base, n.table[dst], final)
      && forall i :: 0 <= i < |hs| ==> !Better(base, Offer(hs[i]), final)
  {
    HandledInOrder(n, dst, base, hs);
    if hs != [] {
      var m := |hs| - 1;
      BestOfAll(n, dst, base, hs[..m]);
      var before := HandleAll(n, hs[..m]).table[dst];
      if before != n.table[dst] {
        var i :| 0 <= i < m && before == Offer(hs[..m][i]);
        assert before == Offer(hs[i]);
      }
      forall i | 0 <= i < |hs| ensures !Better(base, Offer(hs[i]), HandleAll(n, hs).table[dst]) {
        if i < m {
          assert hs[..m][i] == hs[i];
        }
      }
    }
  }

  /** The comparison is a strict total order on the numbers in s. */
  ghost predicate Ranked(s: set<u32>) {
    && (forall a, b :: a in s && b in s && a != b ==> SignedDiff(a, b) > 0 || SignedDiff(b, a) > 0)
    && (forall a, b, c :: a in s && b in s && c in s && SignedDiff(a, b) > 0 && SignedDiff(b, c) > 0 ==>
          SignedDiff(a, c) > 0)
  }

  ghost predicate Fits(base: u32, s: set<u32>) {
    forall a :: a in s ==> InWindow(base, a)
  }

  /** Numbers that are ranked have an oldest one. */
  lemma {:induction false} Oldest(s: set<u32>) returns (m: u32)
    requires s != {} && Ranked(s)
    ensures m in s && forall x :: x in s ==> x == m || SignedDiff(x, m) > 0
    decreases s
  {
    var x :| x in s;
    var rest := s - {x};
    if rest == {} {
      m := x;
      assert forall y :: y in s ==> y == x || y in rest;
    } else {
      var n := Oldest(rest);
      m := if SignedDiff(x, n) > 0 then n else x;
      forall y | y in s ensures y == m || SignedDiff(y, m) > 0 {
        assert y == x || y in rest;
        assert y == x || y == n || SignedDiff(y, n) > 0;
        assert m == n || SignedDiff(n, x) > 0;
      }
    }
  }

  /** The numbers are ranked exactly when they all lie in one window. */
  lemma WindowIff(s: set<u32>)
    requires s != {}
    ensures Ranked(s) <==> exists base: u32 :: Fits(base, s)
  {
    if Ranked(s) {
      var m := Oldest(s);
      forall x | x in s ensures InWindow(m, x) {
        assert x == m || SignedDiff(x, m) > 0;
      }
      assert Fits(m, s);
    }
    if base: u32 :| Fits(base, s) {
      forall a, b, c | a in s && b in s && c in s
        ensures a != b ==> SignedDiff(a, b) > 0 || SignedDiff(b, a) > 0
        ensures SignedDiff(a, b) > 0 && SignedDiff(b, c) > 0 ==> SignedDiff(a, c) > 0
      {
        StrictTotalOrder(base, a, b, c);
      }
    }
  }

  /** Without a window the ranking goes round in a circle: three RREPs bring back the first entry. */
  lemma WindowIsNeeded()
    ensures var a := Route(true, 0, 5, 1, VALID);
      var b, c := a.(seqNo := 0x6000_0000), a.(seqNo := 0xC000_0000);
      && ReplyRule(a, b) == b && ReplyRule(b, c) == c && ReplyRule(c, a) == a
      && forall base: u32 :: !(InWindow(base, a.seqNo) && InWindow(base, b.seqNo) && InWindow(base, c.seqNo))
  {
    forall base: u32 ensures !(InWindow(base, 0) && InWindow(base, 0x6000_0000) && InWindow(base, 0xC000_0000)) {
      if InWindow(base, 0) && InWindow(base, 0x6000_0000) && InWindow(base, 0xC000_0000) {
        StrictTotalOrder(base, 0x6000_0000, 0, 0xC000_0000);
        StrictTotalOrder(base, 0, 0xC000_0000, 0x6000_0000);
      }
    }
  }
}
