/** Binary strings of bindings/python/rad_util.py: int2bin, bin2int and binary_range. */
module BinaryStrings {

  datatype Result<T> = Ok(value: T) | ValueError | KeyError

  function Pow2(n: nat): nat { if n == 0 then 1 else 2 * Pow2(n - 1) }

  predicate Binary(s: string) { forall i :: 0 <= i < |s| ==> s[i] == '0' || s[i] == '1' }

  /** int(s, 2) on strings of 0 and 1. */
  function Bin2Int(s: string): nat {
    if s == "" then 0 else 2 * Bin2Int(s[..|s| - 1]) + if s[|s| - 1] == '1' then 1 else 0
  }

  // ----- int2bin -----

  /** The digits of hex(i), most significant first. */
  function HexDigits(i: nat): (r: seq<nat>)
    ensures forall k :: 0 <= k < |r| ==> r[k] < 16
  {
    if i < 16 then [i] else HexDigits(i / 16) + [i % 16]
  }

  function Bit(b: nat): char { if b % 2 == 1 then '1' else '0' }

  /** The entry of the table hex2bin for one digit. */
  function Nibble(d: nat): string { [Bit(d / 8), Bit(d / 4), Bit(d / 2), Bit(d)] }

  function Joined(digits: seq<nat>): string {
    if digits == [] then "" else Joined(digits[..|digits| - 1]) + Nibble(digits[|digits| - 1])
  }

  /** Python's s[:k] and s[k:]. */
  function UpTo(s: string, k: int): string {
    if k >= |s| then s else if k >= 0 then s[..k] else if k + |s| >= 0 then s[..k + |s|] else ""
  }

  function From(s: string, k: int): string {
    if k >= |s| then "" else if k >= 0 then s[k..] else if k + |s| >= 0 then s[k + |s|..] else s
  }

  function Zeros(n: int): string { if n <= 0 then "" else Zeros(n - 1) + "0" }

  /** The last n digits, with zeros put in front; cutting off a 1 is an error. */
  function Fitted(result: string, n: int): Result<string> {
    if '1' in UpTo(result, -n) then ValueError
    else
      var short := From(result, -n);
      Ok(Zeros(n - |short|) + short)
  }

  /** A negative number has a minus sign in front of its 0x, so the table lookup of the x fails. */
  function Int2Bin(i: int, n: int): Result<string> {
    if i < 0 then KeyError else Fitted(Joined(HexDigits(i)), n)
  }

  // ----- values of binary strings -----

  lemma ValueSnoc(s: string, d: char)
    ensures Bin2Int(s + [d]) == 2 * Bin2Int(s) + if d == '1' then 1 else 0
  {
    assert (s + [d])[..|s|] == s;
  }

  lemma Doubled(x: nat, p: nat, y: nat)
    ensures 2 * (x * p + y) == x * (2 * p) + 2 * y
  {
  }

  lemma {:induction false} ValueConcat(a: string, b: string)
    ensures Bin2Int(a + b) == Bin2Int(a) * Pow2(|b|) + Bin2Int(b)
  {
    if b == "" {
      assert a + b == a;
    } else {
      hide Bin2Int;
      var m := |b| - 1;
      ValueConcat(a, b[..m]);
      ValueSnoc(a + b[..m], b[m]);
      ValueSnoc(b[..m], b[m]);
      assert a + b == (a + b[..m]) + [b[m]] && b == b[..m] + [b[m]];
      Doubled(Bin2Int(a), Pow2(m), Bin2Int(b[..m]));
    }
  }

  lemma {:induction false} ValueBound(s: string)
    ensures Bin2Int(s) < Pow2(|s|)
    ensures Bin2Int(s) == 0 <==> '1' !in s
  {
    if s != "" {
      var m := |s| - 1;
      ValueBound(s[..m]);
      assert s == s[..m] + [s[m]];
    }
  }

  /** A binary string is determined by its length and value. */
  lemma {:induction false} ValueInjective(a: string, b: string)
    requires Binary(a) && Binary(b) && |a| == |b| && Bin2Int(a) == Bin2Int(b)
    ensures a == b
  {
    if a != "" {
      var m := |a| - 1;
      ValueInjective(a[..m], b[..m]);
      assert a == a[..m] + [a[m]] && b == b[..m] + [b[m]];
    }
  }

  lemma NibbleValue(d: nat)
    requires d < 16
    ensures Bin2Int(Nibble(d)) == d && Binary(Nibble(d)) && |Nibble(d)| == 4
  {
    var s := Nibble(d);
    var b0, b1, b2, b3 := d / 8 % 2, d / 4 % 2, d / 2 % 2, d % 2;
    assert d == 8 * b0 + 4 * b1 + 2 * b2 + b3;
    assert s[..3][..2] == s[..2] && s[..2][..1] == s[..1] && s[..1][..0] == "";
    assert Bin2Int(s[..1]) == b0;
    assert Bin2Int(s[..2]) == 2 * b0 + b1;
    assert Bin2Int(s[..3]) == 4 * b0 + 2 * b1 + b2;
  }

  lemma {:induction false} JoinedValue(i: nat)
    ensures Bin2Int(Joined(HexDigits(i))) == i && Binary(Joined(HexDigits(i)))
  {
    hide Nibble, Bin2Int;
    assert Pow2(4) == 16;
    if i < 16 {
      JoinedSnoc([], i);
      assert HexDigits(i) == [] + [i];
      assert Joined([]) == "" && Bin2Int("") == 0 by { EmptyValue(); }
    } else {
      JoinedValue(i / 16);
      JoinedSnoc(HexDigits(i / 16), i % 16);
    }
  }

  lemma EmptyValue()
    ensures Bin2Int("") == 0
  {
  }

  lemma JoinedSnoc(digits: seq<nat>, d: nat)
    requires d < 16
    ensures Bin2Int(Joined(digits + [d])) == 16 * Bin2Int(Joined(digits)) + d
    ensures Binary(Joined(digits)) ==> Binary(Joined(digits + [d]))
  {
    hide Nibble, Bin2Int;
    assert (digits + [d])[..|digits|] == digits;
    NibbleValue(d);
    ValueConcat(Joined(digits), Nibble(d));
    assert Pow2(4) == 16;
  }

  lemma {:induction false} ZerosFacts(n: int)
    ensures Bin2Int(Zeros(n)) == 0 && Binary(Zeros(n)) && |Zeros(n)| == if n <= 0 then 0 else n
  {
    if n > 0 {
      ZerosFacts(n - 1);
    }
  }

  /** How many digits the table lookup produces, before anything is cut off or put in front. */
  function Width(i: nat): nat { |Joined(HexDigits(i))| }

  /**
   * For n >= 1: int2bin gives the n-digit binary string of i, and bin2int undoes it, exactly when
   * 0 <= i < 2^n; beyond that it raises ValueError. For n <= 0 it gives the digits of the table without the first
   * -n of them, which is again a string of value i, exactly when i fits into those left. KeyError comes below 0.
   */
  lemma Int2BinExact(i: int, n: int)
    ensures Int2Bin(i, n) == KeyError <==> i < 0
    ensures n >= 1 ==> (Int2Bin(i, n) == ValueError <==> i >= Pow2(n))
    ensures n >= 1 && 0 <= i < Pow2(n) ==>
      var s := Int2Bin(i, n).value; |s| == n && Binary(s) && Bin2Int(s) == i
    ensures n <= 0 && i >= 0 ==>
      var left := if Width(i) + n >= 0 then Width(i) + n else 0;
      && (Int2Bin(i, n) == ValueError <==> i >= Pow2(left))
      && (i < Pow2(left) ==> var s := Int2Bin(i, n).value; |s| == left && Binary(s) && Bin2Int(s) == i)
  {
    if i >= 0 {
      hide Bin2Int, Joined, HexDigits, Pow2, Fitted, Binary;
      var r := Joined(HexDigits(i));
      JoinedValue(i);
      if n <= 0 {
        FrontCut(r, -n);
      } else if n >= |r| {
        PaddedExact(r, n);
      } else {
        CutExact(r, n);
      }
    }
  }

  /** With n <= 0 Python's slices count from the front. */
  lemma FrontCut(r: string, m: nat)
    requires Binary(r)
    ensures var left := if m <= |r| then |r| - m else 0;
      && (Fitted(r, 0 - m) == ValueError <==> Bin2Int(r) >= Pow2(left))
      && (Bin2Int(r) < Pow2(left) ==>
            && Fitted(r, 0 - m).Ok?
            && var s := Fitted(r, 0 - m).value; |s| == left && Binary(s) && Bin2Int(s) == Bin2Int(r))
  {
    hide Bin2Int, Pow2;
    var k := if m <= |r| then m else |r|;
    var a, b := r[..k], r[k..];
    assert r == a + b;
    ValueSplit(a, b);
    assert UpTo(r, m) == a && From(r, m) == b;
    assert Zeros(0 - m - |b|) == "" && "" + b == b;
  }

  ghost predicate FitsExactly(r: string, n: nat) {
    if Bin2Int(r) >= Pow2(n) then Fitted(r, n) == ValueError
    else
      && Fitted(r, n).Ok?
      && var s := Fitted(r, n).value; |s| == n && Binary(s) && Bin2Int(s) == Bin2Int(r)
  }

  /** The number fits: nothing is cut off, and zeros are put in front. */
  lemma PaddedExact(r: string, n: nat)
    requires Binary(r) && 1 <= n && |r| <= n
    ensures FitsExactly(r, n)
  {
    hide Bin2Int, Zeros, Pow2, Fitted, UpTo, From;
    ValueBound(r);
    PowMonotone(|r|, n);
    NothingCut(r, n);
    var z := Zeros(n - |r|);
    ZerosFacts(n - |r|);
    ValueConcat(z, r);
    assert 0 * Pow2(|r|) == 0;
    assert Binary(z + r);
  }

  lemma NothingCut(r: string, n: nat)
    requires 1 <= n && |r| <= n
    ensures Fitted(r, n) == Ok(Zeros(n - |r|) + r)
  {
    hide Zeros;
    assert UpTo(r, 0 - n) == "" && From(r, 0 - n) == r;
  }

  /** The leading digits are cut off: they are all 0 exactly when the number fits. */
  lemma CutExact(r: string, n: nat)
    requires Binary(r) && 1 <= n < |r|
    ensures FitsExactly(r, n)
  {
    hide Bin2Int, Pow2, Zeros;
    var k := |r| - n;
    var a, b := r[..k], r[k..];
    assert r == a + b;
    assert UpTo(r, 0 - n) == a && From(r, 0 - n) == b;
    ValueSplit(a, b);
    ZerosFacts(0);
    assert Zeros(0) + b == b;
  }

  lemma ValueSplit(a: string, b: string)
    ensures Bin2Int(a + b) >= Pow2(|b|) <==> '1' in a
    ensures Bin2Int(a + b) < Pow2(|b|) ==> Bin2Int(b) == Bin2Int(a + b)
  {
    hide Bin2Int, Pow2;
    ValueConcat(a, b);
    ValueBound(a);
    ValueBound(b);
    HighPart(Bin2Int(a), Pow2(|b|), Bin2Int(b));
  }

  lemma HighPart(h: nat, p: nat, l: nat)
    requires l < p
    ensures h * p + l >= p <==> h != 0
    ensures h == 0 ==> h * p + l == l
  {
    if h != 0 {
      assert h * p >= 1 * p;
    }
  }

  lemma {:induction false} PowMonotone(m: nat, n: nat)
    requires m <= n
    ensures Pow2(m) <= Pow2(n)
  {
    if m < n {
      PowMonotone(m, n - 1);
    }
  }

  // ----- binary_range -----

  function Reversed(v: string): string {
    if v == "" then "" else Reversed(v[1..]) + [v[0]]
  }

  /** The value of a string whose least significant digit comes first. */
  function Little(v: string): nat {
    if v == "" then 0 else (if v[0] == '1' then 1 else 0) + 2 * Little(v[1..])
  }

  lemma {:induction false} ReversedFacts(v: string)
    ensures Bin2Int(Reversed(v)) == Little(v) && |Reversed(v)| == |v| && (Binary(v) ==> Binary(Reversed(v)))
  {
    if v != "" {
      ReversedFacts(v[1..]);
    }
  }

  lemma {:induction false} LittleAt(v: string, i: nat, d: char)
    requires i < |v| && (v[i] == '0' || v[i] == '1') && (d == '0' || d == '1')
    ensures Little(v[i := d]) + (if v[i] == '1' then Pow2(i) else 0)
         == Little(v) + if d == '1' then Pow2(i) else 0
  {
    if i > 0 {
      LittleAt(v[1..], i - 1, d);
      assert v[i := d][1..] == v[1..][i - 1 := d];
    }
  }

  lemma {:induction false} LittleBound(v: string)
    ensures Little(v) < Pow2(|v|)
  {
    if v != "" {
      LittleBound(v[1..]);
    }
  }

  /** The ripple-carry loop: adds 1 to v, and tells in the last toggle whether it overflowed. */
  method Increment(v: string, bits: nat) returns (v': string, toggle: seq<int>)
    requires |v| == bits && bits >= 1 && Binary(v)
    ensures |v'| == bits && Binary(v') && |toggle| == bits + 1 && (toggle[bits] == 0 || toggle[bits] == 1)
    ensures Little(v) + 1 == Little(v') + if toggle[bits] == 1 then Pow2(bits) else 0
  {
    v' := v;
    toggle := [1] + seq(bits, _ => 0);
    var i := 0;
    while i < bits && toggle[i] == 1
      invariant i <= bits && |v'| == bits && Binary(v') && |toggle| == bits + 1
      invariant toggle[i] == 0 || toggle[i] == 1
      invariant forall j :: i < j <= bits ==> toggle[j] == 0
      invariant Little(v) + 1 == Little(v') + if toggle[i] == 1 then Pow2(i) else 0
    {
      if v'[i] == '0' {
        LittleAt(v', i, '1');
        v' := v'[i := '1'];
        toggle := toggle[i + 1 := 0];
      } else {
        LittleAt(v', i, '0');
        v' := v'[i := '0'];
        toggle := toggle[i + 1 := 1];
      }
      i := i + 1;
    }
  }

  /** All 2^bits strings in order; for bits == 0 the loop is never entered and the list is empty. */
  method BinaryRange(bits: nat) returns (l: seq<string>)
    ensures bits == 0 ==> l == []
    ensures bits >= 1 ==> |l| == Pow2(bits)
    ensures forall k :: 0 <= k < |l| ==> Int2Bin(k, bits) == Ok(l[k])
  {
    l := [];
    var v := Zeros(bits);
    var toggle := [1] + seq(bits, _ => 0);
    ZerosFacts(bits);
    LittleZeros(bits);
    while toggle[bits] != 1
      invariant |toggle| == bits + 1 && |v| == bits && Binary(v)
      invariant bits >= 1 ==> toggle[bits] == 0 || toggle[bits] == 1
      invariant bits >= 1 ==> |l| == Little(v) + if toggle[bits] == 1 then Pow2(bits) else 0
      invariant bits == 0 ==> l == [] && toggle[bits] == 1
      invariant bits >= 1 ==> |l| <= Pow2(bits)
      invariant forall k :: 0 <= k < |l| ==> Int2Bin(k, bits) == Ok(l[k])
      decreases Pow2(bits) - |l|, if toggle[bits] == 1 then 0 else 1
    {
      LittleBound(v);
      ReversedFacts(v);
      Int2BinExact(|l|, bits);
      ValueInjective(Int2Bin(|l|, bits).value, Reversed(v));
      l := l + [Reversed(v)];
      v, toggle := Increment(v, bits);
      LittleBound(v);
    }
  }

  lemma LittleZeros(n: nat)
    ensures Little(Zeros(n)) == 0
  {
    AllZero(n);
    NoOnes(Zeros(n));
  }

  lemma {:induction false} NoOnes(v: string)
    requires forall i :: 0 <= i < |v| ==> v[i] == '0'
    ensures Little(v) == 0
  {
    if v != "" {
      NoOnes(v[1..]);
    }
  }

  lemma {:induction false} AllZero(n: nat)
    ensures forall i :: 0 <= i < |Zeros(n)| ==> Zeros(n)[i] == '0'
  {
    if n > 0 {
      AllZero(n - 1);
    }
  }
}
