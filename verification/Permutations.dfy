/** permutations of bindings/python/rad_util.py. */
module Permutations {
  import opened Sequences

  function Factorial(n: nat): nat { if n == 0 then 1 else n * Factorial(n - 1) }

  /** s with item put in at position i. */
  function Inserted<T>(s: seq<T>, i: nat, item: T): seq<T>
    requires i <= |s|
  {
    s[..i] + [item] + s[i..]
  }

  /** item put into s at each of the first n positions, in order. */
  function Insertions<T>(s: seq<T>, item: T, n: nat): seq<seq<T>>
    requires n <= |s| + 1
  {
    if n == 0 then [] else Insertions(s, item, n - 1) + [Inserted(s, n - 1, item)]
  }

  /** All insertions of item into each of the lists, list by list. */
  function InsertEverywhere<T>(lists: seq<seq<T>>, item: T): seq<seq<T>> {
    if lists == [] then []
    else
      var m := |lists| - 1;
      InsertEverywhere(lists[..m], item) + Insertions(lists[m], item, |lists[m]| + 1)
  }

  /** The permutations in the order the source produces them. */
  function Perms<T>(s: seq<T>): seq<seq<T>> {
    if |s| <= 1 then [s] else InsertEverywhere(Perms(s[1..]), s[0])
  }

  ghost predicate Rearranges<T>(p: seq<T>, s: seq<T>) { multiset(p) == multiset(s) }

  lemma EverywhereSnoc<T>(lists: seq<seq<T>>, j: nat, item: T)
    requires j < |lists|
    ensures InsertEverywhere(lists[..j + 1], item)
         == InsertEverywhere(lists[..j], item) + Insertions(lists[j], item, |lists[j]| + 1)
  {
    assert lists[..j + 1][..j] == lists[..j];
  }

  /** The inner loop: item goes into the list at each position in turn. */
  method InsertEach<T>(lists: seq<seq<T>>, subList: seq<T>, item: T, n: nat) returns (outLists: seq<seq<T>>)
    requires n == |subList| + 1
    ensures outLists == lists + Insertions(subList, item, n)
  {
    outLists := lists;
    for i := 0 to n
      invariant outLists == lists + Insertions(subList, item, i)
    {
      outLists := outLists + [subList[..i] + [item] + subList[i..]];
    }
  }

  /** The recursive method: the items of the input list but the first are permuted by the method itself. */
  method Permute<T>(inputList: seq<T>) returns (outLists: seq<seq<T>>)
    ensures outLists == Perms(inputList)
    decreases |inputList|
  {
    outLists := [];
    if |inputList| > 1 {
      var item := inputList[0];
      var subLists := Permute(inputList[1..]);
      assert Perms(inputList) == InsertEverywhere(subLists, item);
      assert InsertEverywhere(subLists[..0], item) == [];
      hide Perms, InsertEverywhere, Inserted;
      for j := 0 to |subLists|
        invariant outLists == InsertEverywhere(subLists[..j], item)
      {
        var subList := subLists[j];
        assert subList in subLists;
        Sound(inputList[1..], subList);
        EverywhereSnoc(subLists, j, item);
        outLists := InsertEach(outLists, subList, item, |inputList|);
      }
      assert subLists[..|subLists|] == subLists;
    } else {
      outLists := [inputList];
    }
  }

  // ----- what the insertions are -----

  ghost predicate InsertionOf<T>(p: seq<T>, l: seq<T>, item: T, n: nat) {
    exists i :: 0 <= i < n && i <= |l| && p == Inserted(l, i, item)
  }

  lemma {:induction false} InsertionsMembers<T>(l: seq<T>, item: T, n: nat, p: seq<T>)
    requires n <= |l| + 1
    ensures p in Insertions(l, item, n) <==> InsertionOf(p, l, item, n)
    ensures |Insertions(l, item, n)| == n
  {
    if n > 0 {
      InsertionsMembers(l, item, n - 1, p);
      if InsertionOf(p, l, item, n) {
        var i :| 0 <= i < n && i <= |l| && p == Inserted(l, i, item);
        assert i < n - 1 ==> InsertionOf(p, l, item, n - 1);
      }
    }
  }

  ghost predicate FromSome<T>(p: seq<T>, lists: seq<seq<T>>, item: T) {
    exists l :: l in lists && InsertionOf(p, l, item, |l| + 1)
  }

  lemma {:induction false} EverywhereMembers<T>(lists: seq<seq<T>>, item: T, p: seq<T>)
    ensures p in InsertEverywhere(lists, item) <==> FromSome(p, lists, item)
  {
    if lists != [] {
      hide Insertions, InsertionOf;
      var m := |lists| - 1;
      EverywhereMembers(lists[..m], item, p);
      InsertionsMembers(lists[m], item, |lists[m]| + 1, p);
      assert lists == lists[..m] + [lists[m]];
    }
  }

  lemma OneMore(a: nat, m: nat)
    ensures a * (m + 1) == a * m + a
  {
  }

  lemma {:induction false} EverywhereCount<T>(lists: seq<seq<T>>, item: T, len: nat)
    requires forall j :: 0 <= j < |lists| ==> |lists[j]| == len
    ensures |InsertEverywhere(lists, item)| == (len + 1) * |lists|
  {
    if lists != [] {
      hide Insertions;
      var m := |lists| - 1;
      EverywhereCount(lists[..m], item, len);
      InsertionsMembers(lists[m], item, len + 1, []);
      OneMore(len + 1, m);
    }
  }

  lemma InsertedRearranges<T>(l: seq<T>, i: nat, item: T)
    requires i <= |l|
    ensures multiset(Inserted(l, i, item)) == multiset(l) + multiset{item}
  {
    assert l == l[..i] + l[i..];
  }

  /** Every result is a rearrangement of the input. */
  lemma {:induction false} Sound<T>(s: seq<T>, p: seq<T>)
    requires p in Perms(s)
    ensures Rearranges(p, s) && |p| == |s|
    decreases |s|
  {
    if |s| > 1 {
      EverywhereMembers(Perms(s[1..]), s[0], p);
      var l :| l in Perms(s[1..]) && InsertionOf(p, l, s[0], |l| + 1);
      var i :| 0 <= i < |l| + 1 && i <= |l| && p == Inserted(l, i, s[0]);
      Sound(s[1..], l);
      InsertedRearranges(l, i, s[0]);
      assert s == [s[0]] + s[1..];
    }
  }

  /** There are n! results. */
  lemma {:induction false} Count<T>(s: seq<T>)
    ensures |Perms(s)| == Factorial(|s|)
    decreases |s|
  {
    if |s| > 1 {
      var sub := Perms(s[1..]);
      Count(s[1..]);
      forall j | 0 <= j < |sub| ensures |sub[j]| == |s| - 1 {
        Sound(s[1..], sub[j]);
      }
      EverywhereCount(sub, s[0], |s| - 1);
    } else {
      assert Factorial(0) == 1 && Factorial(1) == 1 * Factorial(0);
    }
  }

  lemma TakenOut<T>(p: seq<T>, i: nat) returns (l: seq<T>)
    requires i < |p|
    ensures |l| == |p| - 1 && p == Inserted(l, i, p[i]) && multiset(l) == multiset(p) - multiset{p[i]}
  {
    l := p[..i] + p[i + 1..];
    assert p == p[..i] + [p[i]] + p[i + 1..];
  }

  lemma SameSize<T>(p: seq<T>, s: seq<T>)
    requires Rearranges(p, s)
    ensures |p| == |s|
  {
    assert |p| == |multiset(p)| == |multiset(s)| == |s|;
  }

  /** Every rearrangement of the input occurs. */
  lemma {:induction false} Complete<T>(s: seq<T>, p: seq<T>)
    requires Rearranges(p, s)
    ensures p in Perms(s)
    decreases |s|
  {
    SameSize(p, s);
    if |s| > 1 {
      hide InsertEverywhere;
      assert s == [s[0]] + s[1..];
      assert s[0] in multiset(p);
      var i :| 0 <= i < |p| && p[i] == s[0];
      var l := TakenOut(p, i);
      assert multiset(l) == multiset(s[1..]);
      Complete(s[1..], l);
      assert InsertionOf(p, l, s[0], |l| + 1);
      EverywhereMembers(Perms(s[1..]), s[0], p);
    } else if |s| == 1 {
      assert p[0] in multiset(p) && s == [s[0]];
      assert p == s;
    } else {
      assert p == s;
    }
  }

  // ----- no result twice -----

  lemma DistinctConcat<T>(a: seq<T>, b: seq<T>)
    requires Distinct(a) && Distinct(b) && forall x :: x in a ==> x !in b
    ensures Distinct(a + b)
  {
    var c := a + b;
    forall i, j | 0 <= i < j < |c| ensures c[i] != c[j] {
      if i < |a| <= j {
        assert a[i] in a && b[j - |a|] in b;
      }
    }
  }

  /** Where item was put, and what it was put into, can be read off the result. */
  lemma InsertedUnique<T>(l: seq<T>, i: nat, m: seq<T>, j: nat, item: T)
    requires i <= |l| && j <= |m| && item !in l && item !in m
    requires Inserted(l, i, item) == Inserted(m, j, item)
    ensures i == j && l == m
  {
    var p := Inserted(l, i, item);
    assert p[i] == item && p[j] == item;
    forall k | 0 <= k < |p| && k != i ensures p[k] != item {
      assert p[k] == if k < i then l[k] else l[k - 1];
    }
    assert l == p[..i] + p[i + 1..] && m == p[..j] + p[j + 1..];
  }

  lemma {:induction false} InsertionsDistinct<T>(l: seq<T>, item: T, n: nat)
    requires n <= |l| + 1 && item !in l
    ensures Distinct(Insertions(l, item, n))
  {
    if n > 0 {
      var before, last := Insertions(l, item, n - 1), Inserted(l, n - 1, item);
      InsertionsDistinct(l, item, n - 1);
      InsertionsMembers(l, item, n - 1, last);
      if last in before {
        var i :| 0 <= i < n - 1 && i <= |l| && last == Inserted(l, i, item);
        InsertedUnique(l, n - 1, l, i, item);
      }
      DistinctConcat(before, [last]);
    }
  }

  lemma {:induction false} EverywhereDistinct<T(!new)>(lists: seq<seq<T>>, item: T)
    requires Distinct(lists) && forall l :: l in lists ==> item !in l
    ensures Distinct(InsertEverywhere(lists, item))
  {
    if lists != [] {
      var m := |lists| - 1;
      var before, last := InsertEverywhere(lists[..m], item), Insertions(lists[m], item, |lists[m]| + 1);
      EverywhereDistinct(lists[..m], item);
      InsertionsDistinct(lists[m], item, |lists[m]| + 1);
      forall p | p in before ensures p !in last {
        EverywhereMembers(lists[..m], item, p);
        InsertionsMembers(lists[m], item, |lists[m]| + 1, p);
        var l :| l in lists[..m] && InsertionOf(p, l, item, |l| + 1);
        var i :| 0 <= i < |l| + 1 && i <= |l| && p == Inserted(l, i, item);
        if p in last {
          var j :| 0 <= j < |lists[m]| + 1 && j <= |lists[m]| && p == Inserted(lists[m], j, item);
          InsertedUnique(l, i, lists[m], j, item);
        }
      }
      DistinctConcat(before, last);
    }
  }

  /** With distinct input items no two results are equal. */
  lemma {:induction false} NoneTwice<T(!new)>(s: seq<T>)
    requires Distinct(s)
    ensures Distinct(Perms(s))
    decreases |s|
  {
    if |s| > 1 {
      NoneTwice(s[1..]);
      forall l | l in Perms(s[1..]) ensures s[0] !in l {
        Sound(s[1..], l);
        assert s[0] !in s[1..];
        assert multiset(l)[s[0]] == multiset(s[1..])[s[0]];
      }
      EverywhereDistinct(Perms(s[1..]), s[0]);
    }
  }
}
