/** The text form of patches in utils/check-style.py: what the write methods print and what each line is read as. */
module PatchText {
  import opened Options

  /** A PatchChunkLine; Unset is one whose type was never set. */
  datatype Line = Unset | Src(text: string) | Dst(text: string) | Both(text: string) {
    predicate IsSrc() { Src? || Both? }
    predicate IsDst() { Dst? || Both? }
  }

  datatype ChunkValue = ChunkValue(srcPos: int, dstPos: int, lines: seq<Line>)

  datatype PatchValue = PatchValue(src: string, dst: string, chunks: seq<ChunkValue>)

  datatype Error = AttributeError | UnboundLocalError | BadLine

  datatype Result<+T> = Ok(value: T) | Failed(error: Error)

  /** What one line of a patch set is read as. */
  datatype Read =
    | SrcFile(name: string)
    | DstFile(name: string)
    | ChunkStart(srcPos: int, srcLen: int, dstPos: int, dstLen: int)
    | Body(line: Line)
    | Other

  // ----- decimal numbers -----

  predicate IsDigit(c: char) { '0' <= c <= '9' }

  function Decimal(n: nat): string {
    if n < 10 then ["0123456789"[n]] else Decimal(n / 10) + ["0123456789"[n % 10]]
  }

  /** The format %d. */
  function Shown(i: int): string { if i < 0 then "-" + Decimal(-i) else Decimal(i) }

  /** int(s) on a string of digits. */
  function ToInt(s: string): nat
    requires forall i :: 0 <= i < |s| ==> IsDigit(s[i])
  {
    if s == "" then 0
    else
      assert IsDigit(s[|s| - 1]);
      10 * ToInt(s[..|s| - 1]) + (s[|s| - 1] as int - '0' as int)
  }

  /** Length of the longest prefix of digits. */
  function Digits(s: string): (k: nat)
    ensures k <= |s| && (forall i :: 0 <= i < k ==> IsDigit(s[i])) && (k < |s| ==> !IsDigit(s[k]))
  {
    if s == "" || !IsDigit(s[0]) then 0 else 1 + Digits(s[1..])
  }

  lemma ToIntSnoc(s: string, c: char)
    requires (forall i :: 0 <= i < |s| ==> IsDigit(s[i])) && IsDigit(c)
    ensures ToInt(s + [c]) == 10 * ToInt(s) + (c as int - '0' as int)
  {
    assert (s + [c])[..|s|] == s;
  }

  lemma DigitChar(d: nat)
    requires d < 10
    ensures var c := "0123456789"[d]; IsDigit(c) && c as int - '0' as int == d
  {
  }

  lemma {:induction false} DecimalReads(n: nat)
    ensures Decimal(n) != "" && forall i :: 0 <= i < |Decimal(n)| ==> IsDigit(Decimal(n)[i])
    ensures ToInt(Decimal(n)) == n
  {
    DigitChar(n % 10);
    if n < 10 {
      assert Decimal(n) == "" + ["0123456789"[n % 10]];
      assert ToInt("") == 0;
      ToIntSnoc("", "0123456789"[n % 10]);
    } else {
      DecimalReads(n / 10);
      hide ToInt;
      ToIntSnoc(Decimal(n / 10), "0123456789"[n % 10]);
    }
  }

  // ----- the six regular expressions -----

  /** '^' + prefix + '(.*)$': the dot matches no newline, the dollar may stand before a final one. */
  function Rest(line: string, prefix: string): Option<string> {
    if !(prefix <= line) then None
    else
      var r := line[|prefix|..];
      if '\n' !in r then Some(r)
      else if r[|r| - 1] == '\n' && '\n' !in r[..|r| - 1] then Some(r[..|r| - 1])
      else None
  }

  /** A match in progress: the numbers captured so far and the text still to match. */
  datatype Scan = NoMatch | At(numbers: seq<nat>, rest: string) {
    function Literal(s: string): Scan {
      if At? && s <= rest then At(numbers, rest[|s|..]) else NoMatch
    }

    function Number(): Scan {
      if At? && Digits(rest) > 0 then At(numbers + [ToInt(rest[..Digits(rest)])], rest[Digits(rest)..]) else NoMatch
    }
  }

  function ChunkHeader(line: string): Scan {
    At([], line).Literal("@@ -").Number().Literal(",").Number().Literal(" +").Number().Literal(",").Number()
      .Literal(" @@")
  }

  /** The expressions in the order in which parse_patchset tries them. */
  function Classify(line: string): Read {
    if Rest(line, "--- ").Some? then SrcFile(Rest(line, "--- ").value)
    else if Rest(line, "+++ ").Some? then DstFile(Rest(line, "+++ ").value)
    else if ChunkHeader(line).At? && |ChunkHeader(line).numbers| == 4 then
      var ns := ChunkHeader(line).numbers;
      ChunkStart(ns[0], ns[1], ns[2], ns[3])
    else if Rest(line, "-").Some? then Body(Src(Rest(line, "-").value))
    else if Rest(line, "+").Some? then Body(Dst(Rest(line, "+").value))
    else if Rest(line, " ").Some? then Body(Both(Rest(line, " ").value))
    else Other
  }

  // ----- printing -----

  function Show(r: Read): string {
    match r
    case SrcFile(name) => "--- " + name + "\n"
    case DstFile(name) => "+++ " + name + "\n"
    case ChunkStart(a, la, b, lb) =>
      "@@ -" + Shown(a) + "," + Shown(la) + " +" + Shown(b) + "," + Shown(lb) + " @@\n"
    case Body(Src(text)) => "-" + text + "\n"
    case Body(Dst(text)) => "+" + text + "\n"
    case Body(Both(text)) => " " + text + "\n"
    case Body(Unset) => ""
    case Other => ""
  }

  predicate OneLine(s: string) { '\n' !in s }

  predicate GoodLine(l: Line) {
    match l
    case Unset => false
    case Src(text) => OneLine(text) && !("-- " <= text)
    case Dst(text) => OneLine(text) && !("++ " <= text)
    case Both(text) => OneLine(text)
  }

  /** What can be printed and read back. */
  predicate Good(r: Read) {
    match r
    case SrcFile(name) => OneLine(name)
    case DstFile(name) => OneLine(name)
    case ChunkStart(a, la, b, lb) => a >= 0 && la >= 0 && b >= 0 && lb >= 0
    case Body(line) => GoodLine(line)
    case Other => false
  }

  lemma RestIsOneLine(line: string, prefix: string)
    ensures Rest(line, prefix).Some? ==> OneLine(Rest(line, prefix).value)
  {
  }

  /** Nothing else ever comes out of the regular expressions. */
  lemma ClassifiedIsGood(line: string)
    ensures Classify(line).Other? || Good(Classify(line))
  {
    hide ChunkHeader, Rest, OneLine;
    RestIsOneLine(line, "--- ");
    RestIsOneLine(line, "+++ ");
    RestIsOneLine(line, "-");
    RestIsOneLine(line, "+");
    RestIsOneLine(line, " ");
    RestOfRest(line, "-", "-- ", "--- ");
    RestOfRest(line, "+", "++ ", "+++ ");
  }

  lemma RestOfRest(line: string, p: string, q: string, pq: string)
    requires pq == p + q
    ensures Rest(line, p).Some? && q <= Rest(line, p).value ==> Rest(line, pq).Some?
  {
    if Rest(line, p).Some? && q <= Rest(line, p).value {
      var r := line[|p|..];
      assert q <= r;
      assert line == p + r && r == q + r[|q|..];
      assert line == pq + r[|q|..];
      assert line[|pq|..] == r[|q|..];
    }
  }

  lemma RestShown(prefix: string, text: string)
    requires OneLine(text)
    ensures Rest(prefix + text + "\n", prefix) == Some(text)
  {
    var line := prefix + text + "\n";
    assert line == prefix + (text + "\n");
    assert line[|prefix|..] == text + "\n";
    assert (text + "\n")[..|text|] == text;
  }

  lemma LiteralShown(ns: seq<nat>, s: string, rest: string)
    ensures At(ns, s + rest).Literal(s) == At(ns, rest)
  {
    assert (s + rest)[|s|..] == rest;
  }

  lemma {:induction false} DigitsStop(d: string, rest: string)
    requires forall i :: 0 <= i < |d| ==> IsDigit(d[i])
    requires rest != "" && !IsDigit(rest[0])
    ensures Digits(d + rest) == |d|
  {
    if d == "" {
      assert d + rest == rest;
    } else {
      DigitsStop(d[1..], rest);
      assert (d + rest)[1..] == d[1..] + rest;
    }
  }

  lemma NumberShown(ns: seq<nat>, n: int, rest: string)
    requires n >= 0 && rest != "" && !IsDigit(rest[0])
    ensures At(ns, Shown(n) + rest).Number() == At(ns + [n], rest)
  {
    hide Decimal, ToInt, Digits;
    var d := Decimal(n);
    DecimalReads(n);
    DigitsStop(d, rest);
    assert (d + rest)[..|d|] == d && (d + rest)[|d|..] == rest;
  }

  lemma Regrouped(sa: string, sla: string, sb: string, slb: string)
    ensures "@@ -" + sa + "," + sla + " +" + sb + "," + slb + " @@\n"
         == "@@ -" + (sa + ("," + (sla + (" +" + (sb + ("," + (slb + (" @@" + "\n"))))))))
  {
  }

  lemma HeaderShown(a: int, la: int, b: int, lb: int)
    requires a >= 0 && la >= 0 && b >= 0 && lb >= 0
    ensures ChunkHeader(Show(ChunkStart(a, la, b, lb))) == At([a, la, b, lb], "\n")
  {
    hide Shown, Scan.Literal, Scan.Number, Digits;
    var s8 := " @@" + "\n";
    var s6 := "," + (Shown(lb) + s8);
    var s4 := " +" + (Shown(b) + s6);
    var s2 := "," + (Shown(la) + s4);
    Regrouped(Shown(a), Shown(la), Shown(b), Shown(lb));
    assert [] + [a] == [a] && [a] + [la] == [a, la] && [a, la] + [b] == [a, la, b];
    assert [a, la, b] + [lb] == [a, la, b, lb];
    LiteralShown([], "@@ -", Shown(a) + s2);
    NumberShown([], a, s2);
    LiteralShown([a], ",", Shown(la) + s4);
    NumberShown([a], la, s4);
    LiteralShown([a, la], " +", Shown(b) + s6);
    NumberShown([a, la], b, s6);
    LiteralShown([a, la, b], ",", Shown(lb) + s8);
    NumberShown([a, la, b], lb, s8);
    LiteralShown([a, la, b, lb], " @@", "\n");
  }

  // ----- the expression for a chunk header, exactly -----

  predicate Number(s: string) { s != "" && forall i :: 0 <= i < |s| ==> IsDigit(s[i]) }

  /** One or more digits in each of the four places, and anything after the last mark. */
  predicate HeaderForm(line: string, a: string, la: string, b: string, lb: string, tail: string) {
    && Number(a) && Number(la) && Number(b) && Number(lb)
    && line == "@@ -" + (a + ("," + (la + (" +" + (b + ("," + (lb + (" @@" + tail))))))))
  }

  lemma NumberRead(ns: seq<nat>, d: string, rest: string)
    requires Number(d) && rest != "" && !IsDigit(rest[0])
    ensures At(ns, d + rest).Number() == At(ns + [ToInt(d)], rest)
  {
    hide ToInt, Digits;
    DigitsStop(d, rest);
    assert (d + rest)[..|d|] == d && (d + rest)[|d|..] == rest;
  }

  lemma HeaderRead(line: string, a: string, la: string, b: string, lb: string, tail: string)
    requires HeaderForm(line, a, la, b, lb, tail)
    ensures ChunkHeader(line) == At([ToInt(a), ToInt(la), ToInt(b), ToInt(lb)], tail)
  {
    hide Scan.Literal, Scan.Number, Digits, ToInt;
    var s8 := " @@" + tail;
    var s6 := "," + (lb + s8);
    var s4 := " +" + (b + s6);
    var s2 := "," + (la + s4);
    var na, nla, nb, nlb := ToInt(a), ToInt(la), ToInt(b), ToInt(lb);
    assert [] + [na] == [na] && [na] + [nla] == [na, nla] && [na, nla] + [nb] == [na, nla, nb];
    assert [na, nla, nb] + [nlb] == [na, nla, nb, nlb];
    LiteralShown([], "@@ -", a + s2);
    NumberRead([], a, s2);
    LiteralShown([na], ",", la + s4);
    NumberRead([na], la, s4);
    LiteralShown([na, nla], " +", b + s6);
    NumberRead([na, nla], b, s6);
    LiteralShown([na, nla, nb], ",", lb + s8);
    NumberRead([na, nla, nb], lb, s8);
    LiteralShown([na, nla, nb, nlb], " @@", tail);
  }

  lemma LiteralTaken(s: Scan, x: string)
    requires s.Literal(x).At?
    ensures s.At? && s.rest == x + s.Literal(x).rest && s.Literal(x).numbers == s.numbers
  {
  }

  lemma NumberTaken(s: Scan) returns (d: string)
    requires s.Number().At?
    ensures s.At? && Number(d) && s.rest == d + s.Number().rest
  {
    d := s.rest[..Digits(s.rest)];
  }

  lemma HeaderTaken(line: string) returns (a: string, la: string, b: string, lb: string, tail: string)
    requires ChunkHeader(line).At?
    ensures HeaderForm(line, a, la, b, lb, tail)
  {
    var s1 := At([], line).Literal("@@ -");
    var s2 := s1.Number();
    var s3 := s2.Literal(",");
    var s4 := s3.Number();
    var s5 := s4.Literal(" +");
    var s6 := s5.Number();
    var s7 := s6.Literal(",");
    var s8 := s7.Number();
    assert ChunkHeader(line) == s8.Literal(" @@");
    hide Scan.Literal, Scan.Number, Number;
    LiteralTaken(s8, " @@");
    lb := NumberTaken(s7);
    LiteralTaken(s6, ",");
    b := NumberTaken(s5);
    LiteralTaken(s4, " +");
    la := NumberTaken(s3);
    LiteralTaken(s2, ",");
    a := NumberTaken(s1);
    LiteralTaken(At([], line), "@@ -");
    tail := s8.Literal(" @@").rest;
  }

  /** Exactly which lines match, and what is captured. */
  lemma HeaderIff(line: string)
    ensures ChunkHeader(line).At? <==> exists a, la, b, lb, tail :: HeaderForm(line, a, la, b, lb, tail)
    ensures forall a, la, b, lb, tail :: HeaderForm(line, a, la, b, lb, tail) ==>
      ChunkHeader(line) == At([ToInt(a), ToInt(la), ToInt(b), ToInt(lb)], tail)
  {
    hide ChunkHeader, ToInt;
    forall a, la, b, lb, tail | HeaderForm(line, a, la, b, lb, tail)
      ensures ChunkHeader(line) == At([ToInt(a), ToInt(la), ToInt(b), ToInt(lb)], tail)
    {
      HeaderRead(line, a, la, b, lb, tail);
    }
    if ChunkHeader(line).At? {
      var a, la, b, lb, tail := HeaderTaken(line);
    }
  }

  lemma PrefixOfText(q: string, text: string)
    requires OneLine(q)
    ensures q <= text + "\n" ==> q <= text
  {
    var line := text + "\n";
    assert line[|text|] == '\n';
    if |q| <= |text| {
      assert line[..|q|] == text[..|q|];
    }
  }

  lemma NoHeader(line: string)
    requires line != "" && line[0] != '@'
    ensures ChunkHeader(line) == NoMatch
  {
  }

  /** A line with a different first character does not match. */
  lemma OtherStart(line: string, prefix: string)
    requires line != "" && prefix != "" && line[0] != prefix[0]
    ensures Rest(line, prefix) == None
  {
  }

  lemma DropMark(p: string, line: string)
    requires p != "" && line != ""
    ensures p <= line ==> p[1..] <= line[1..]
  {
    if p <= line {
      assert line[..|p|][1..] == line[1..][..|p| - 1];
    }
  }

  lemma MarkedNotHeading(mark: string, q: string, text: string)
    requires |mark| == 1 && OneLine(q) && !(q <= text)
    ensures Rest(mark + text + "\n", mark + q) == None
  {
    PrefixOfText(q, text);
    DropMark(mark + q, mark + text + "\n");
    assert (mark + text + "\n")[1..] == text + "\n" && (mark + q)[1..] == q;
  }

  lemma SrcShown(text: string)
    requires OneLine(text) && !("-- " <= text)
    ensures Classify("-" + text + "\n") == Body(Src(text))
  {
    hide Rest, ChunkHeader;
    MarkedNotHeading("-", "-- ", text);
    assert "-" + "-- " == "--- ";
    OtherStart("-" + text + "\n", "+++ ");
    NoHeader("-" + text + "\n");
    RestShown("-", text);
  }

  lemma DstShown(text: string)
    requires OneLine(text) && !("++ " <= text)
    ensures Classify("+" + text + "\n") == Body(Dst(text))
  {
    hide Rest, ChunkHeader;
    MarkedNotHeading("+", "++ ", text);
    assert "+" + "++ " == "+++ ";
    OtherStart("+" + text + "\n", "--- ");
    NoHeader("+" + text + "\n");
    OtherStart("+" + text + "\n", "-");
    RestShown("+", text);
  }

  lemma BothShown(text: string)
    requires OneLine(text)
    ensures Classify(" " + text + "\n") == Body(Both(text))
  {
    hide Rest, ChunkHeader;
    var line := " " + text + "\n";
    OtherStart(line, "--- ");
    OtherStart(line, "+++ ");
    NoHeader(line);
    OtherStart(line, "-");
    OtherStart(line, "+");
    RestShown(" ", text);
  }

  /** Every printed line is read back as what it was printed for. */
  lemma ShowClassified(r: Read)
    requires Good(r)
    ensures Classify(Show(r)) == r
  {
    hide ChunkHeader, Rest;
    match r
    case SrcFile(name) =>
      RestShown("--- ", name);
    case DstFile(name) =>
      OtherStart(Show(r), "--- ");
      RestShown("+++ ", name);
    case ChunkStart(a, la, b, lb) =>
      HeaderShown(a, la, b, lb);
      OtherStart(Show(r), "--- ");
      OtherStart(Show(r), "+++ ");
    case Body(Src(text)) =>
      SrcShown(text);
    case Body(Dst(text)) =>
      DstShown(text);
    case Body(Both(text)) =>
      BothShown(text);
  }

  predicate IsLine(s: string) { s != "" && s[|s| - 1] == '\n' && OneLine(s[..|s| - 1]) }

  lemma WithNewline(s: string)
    requires OneLine(s)
    ensures IsLine(s + "\n")
  {
    assert (s + "\n")[..|s|] == s;
  }

  /** A printed line ends in its only newline. */
  lemma ShowIsLine(r: Read)
    requires Good(r)
    ensures IsLine(Show(r))
  {
    hide IsLine, Decimal;
    match r
    case SrcFile(name) =>
      WithNewline("--- " + name);
    case DstFile(name) =>
      WithNewline("+++ " + name);
    case ChunkStart(a, la, b, lb) =>
      HeaderIsLine(Shown(a), Shown(la), Shown(b), Shown(lb)) by {
        DecimalReads(a);
        DecimalReads(la);
        DecimalReads(b);
        DecimalReads(lb);
      }
    case Body(Src(text)) =>
      WithNewline("-" + text);
    case Body(Dst(text)) =>
      WithNewline("+" + text);
    case Body(Both(text)) =>
      WithNewline(" " + text);
  }

  lemma HeaderIsLine(sa: string, sla: string, sb: string, slb: string)
    requires OneLine(sa) && OneLine(sla) && OneLine(sb) && OneLine(slb)
    ensures IsLine("@@ -" + sa + "," + sla + " +" + sb + "," + slb + " @@\n")
  {
    hide IsLine;
    var h := "@@ -" + sa + "," + sla + " +" + sb + "," + slb;
    assert OneLine(h);
    WithNewline(h + " @@");
    assert h + " @@" + "\n" == h + " @@\n";
  }
}
