/** Printing and parsing whole patch sets, on values: the round trip. */
module PatchParse {
  import opened Options
  import opened PatchText

  // ----- printing -----

  /** The lines of the old file and those of the new one. */
  function SrcLines(lines: seq<Line>): seq<Line> {
    if lines == [] then []
    else SrcLines(lines[..|lines| - 1]) + if lines[|lines| - 1].IsSrc() then [lines[|lines| - 1]] else []
  }

  function DstLines(lines: seq<Line>): seq<Line> {
    if lines == [] then []
    else DstLines(lines[..|lines| - 1]) + if lines[|lines| - 1].IsDst() then [lines[|lines| - 1]] else []
  }

  /** On the source side are the removed and the common lines, on the other the added and the common ones. */
  predicate OnSide(line: Line, source: bool) {
    line.Both? || if source then line.Src? else line.Dst?
  }

  /** picked holds, in order, the lines of one side: those at the positions at, which ascend and miss none. */
  ghost predicate Picks(lines: seq<Line>, source: bool, at: seq<nat>, picked: seq<Line>) {
    && |at| == |picked|
    && (forall k :: 0 <= k < |at| ==> at[k] < |lines| && lines[at[k]] == picked[k] && OnSide(picked[k], source))
    && (forall j, k :: 0 <= j < k < |at| ==> at[j] < at[k])
    && forall i :: 0 <= i < |lines| && OnSide(lines[i], source) ==> Listed(at, i)
  }

  ghost predicate Listed(at: seq<nat>, i: nat) {
    exists k :: 0 <= k < |at| && at[k] == i
  }

  lemma ListedMore(at: seq<nat>, m: nat, i: nat)
    ensures Listed(at, i) || i == m ==> Listed(at + [m], i)
  {
    var at' := at + [m];
    if k :| 0 <= k < |at| && at[k] == i {
      assert at'[k] == i;
    }
    assert at'[|at|] == m;
  }

  lemma PicksSame(lines: seq<Line>, source: bool, at: seq<nat>, picked: seq<Line>, line: Line)
    requires Picks(lines, source, at, picked) && !OnSide(line, source)
    ensures Picks(lines + [line], source, at, picked)
  {
    hide OnSide, Listed;
  }

  lemma PicksMore(lines: seq<Line>, source: bool, at: seq<nat>, picked: seq<Line>, line: Line)
    requires Picks(lines, source, at, picked) && OnSide(line, source)
    ensures Picks(lines + [line], source, at + [|lines|], picked + [line])
  {
    hide OnSide, Listed;
    var more := lines + [line];
    forall i | 0 <= i < |more| && OnSide(more[i], source) ensures Listed(at + [|lines|], i) {
      ListedMore(at, |lines|, i);
    }
  }

  function Side(lines: seq<Line>, source: bool): seq<Line> { if source then SrcLines(lines) else DstLines(lines) }

  lemma SideSnoc(lines: seq<Line>, source: bool, line: Line)
    ensures Side(lines + [line], source) == Side(lines, source) + if OnSide(line, source) then [line] else []
    ensures Side([], source) == []
  {
    assert (lines + [line])[..|lines|] == lines;
  }

  lemma NoneToPick(source: bool)
    ensures Picks([], source, [], [])
  {
  }

  /** What get_src and get_dst give. */
  lemma {:induction false} SidesInOrder(lines: seq<Line>, source: bool) returns (at: seq<nat>)
    ensures Picks(lines, source, at, Side(lines, source))
  {
    hide Picks, OnSide, Side;
    at := [];
    if lines == [] {
      SideSnoc([], source, Unset);
      NoneToPick(source);
    } else {
      var m := |lines| - 1;
      at := SidesInOrder(lines[..m], source);
      assert lines == lines[..m] + [lines[m]];
      SideSnoc(lines[..m], source, lines[m]);
      if OnSide(lines[m], source) {
        PicksMore(lines[..m], source, at, Side(lines[..m], source), lines[m]);
        at := at + [m];
      } else {
        PicksSame(lines[..m], source, at, Side(lines[..m], source), lines[m]);
        assert Side(lines[..m], source) + [] == Side(lines[..m], source);
      }
    }
  }

  /** The positions of the lines of one side. */
  ghost function OfSide(lines: seq<Line>, source: bool): set<nat> {
    set i | 0 <= i < |lines| && OnSide(lines[i], source)
  }

  lemma {:induction false} SideLength(lines: seq<Line>, source: bool)
    ensures |Side(lines, source)| == |OfSide(lines, source)|
  {
    hide OnSide, Side;
    if lines == [] {
      SideSnoc([], source, Unset);
    } else {
      var m := |lines| - 1;
      SideLength(lines[..m], source);
      assert lines == lines[..m] + [lines[m]];
      SideSnoc(lines[..m], source, lines[m]);
      var before, now := OfSide(lines[..m], source), OfSide(lines, source);
      assert now == if OnSide(lines[m], source) then before + {m} else before;
    }
  }

  function LineReads(lines: seq<Line>): seq<Read> {
    if lines == [] then [] else LineReads(lines[..|lines| - 1]) + [Body(lines[|lines| - 1])]
  }

  function ChunkReads(c: ChunkValue): seq<Read> {
    [ChunkStart(c.srcPos, |SrcLines(c.lines)|, c.dstPos, |DstLines(c.lines)|)] + LineReads(c.lines)
  }

  /** The header announces as many lines of each side as follow it. */
  lemma HeaderAnnounces(c: ChunkValue)
    ensures |ChunkReads(c)| == 1 + |c.lines|
    ensures forall i :: 0 <= i < |c.lines| ==> ChunkReads(c)[1 + i] == Body(c.lines[i])
    ensures ChunkReads(c)[0] == ChunkStart(c.srcPos, |OfSide(c.lines, true)|, c.dstPos, |OfSide(c.lines, false)|)
  {
    hide OfSide, LineReads;
    LinesRead(c.lines);
    SideLength(c.lines, true);
    SideLength(c.lines, false);
  }

  lemma {:induction false} LinesRead(lines: seq<Line>)
    ensures |LineReads(lines)| == |lines|
    ensures forall i :: 0 <= i < |lines| ==> LineReads(lines)[i] == Body(lines[i])
  {
    if lines != [] {
      LinesRead(lines[..|lines| - 1]);
    }
  }

  function ChunksReads(chunks: seq<ChunkValue>): seq<Read> {
    if chunks == [] then [] else ChunksReads(chunks[..|chunks| - 1]) + ChunkReads(chunks[|chunks| - 1])
  }

  function PatchReads(p: PatchValue): seq<Read> { [SrcFile(p.src), DstFile(p.dst)] + ChunksReads(p.chunks) }

  /** What the lines printed for the patches stand for, in order. */
  function Reads(patches: seq<PatchValue>): seq<Read> {
    if patches == [] then [] else Reads(patches[..|patches| - 1]) + PatchReads(patches[|patches| - 1])
  }

  function Text(rs: seq<Read>): string {
    if rs == [] then "" else Text(rs[..|rs| - 1]) + Show(rs[|rs| - 1])
  }

  // ----- parsing -----

  /** Where parse_patchset stands: current is the patch that holds the current chunk, as its last; -1 before any. */
  datatype State = State(patches: seq<PatchValue>, current: int)

  predicate Valid(st: State) {
    -1 <= st.current < |st.patches| && (st.current >= 0 ==> st.patches[st.current].chunks != [])
  }

  function AddLine(p: PatchValue, line: Line): PatchValue
    requires p.chunks != []
  {
    var n := |p.chunks| - 1;
    p.(chunks := p.chunks[n := p.chunks[n].(lines := p.chunks[n].lines + [line])])
  }

  /** One turn of the loop. The current chunk stays current when a new patch begins. */
  function Step(st: State, r: Read): (after: Result<State>)
    requires Valid(st)
    ensures after.Ok? ==> Valid(after.value)
  {
    var n := |st.patches| - 1;
    match r
    case SrcFile(name) => Ok(State(st.patches + [PatchValue(name, "", [])], st.current))
    case DstFile(name) =>
      if n < 0 then Failed(AttributeError)
      else Ok(State(st.patches[n := st.patches[n].(dst := name)], st.current))
    case ChunkStart(a, _, b, _) =>
      if n < 0 then Failed(AttributeError)
      else
        var p := st.patches[n];
        Ok(State(st.patches[n := p.(chunks := p.chunks + [ChunkValue(a, b, [])])], n))
    case Body(line) =>
      if st.current < 0 then Failed(UnboundLocalError)
      else Ok(State(st.patches[st.current := AddLine(st.patches[st.current], line)], st.current))
    case Other => Failed(BadLine)
  }

  function ParseFrom(st: State, rs: seq<Read>): (after: Result<State>)
    requires Valid(st)
    ensures after.Ok? ==> Valid(after.value)
  {
    if rs == [] then Ok(st)
    else
      match ParseFrom(st, rs[..|rs| - 1])
      case Ok(mid) => Step(mid, rs[|rs| - 1])
      case Failed(e) => Failed(e)
  }

  function Classified(lines: seq<string>): seq<Read> {
    seq(|lines|, i requires 0 <= i < |lines| => Classify(lines[i]))
  }

  const START := State([], -1)

  function ParseLines(lines: seq<string>): Result<seq<PatchValue>> {
    match ParseFrom(START, Classified(lines))
    case Ok(st) => Ok(st.patches)
    case Failed(e) => Failed(e)
  }

  /** c in front of the first of the lines, or as a line of its own. */
  function InFront(c: char, lines: seq<string>): seq<string> {
    if c == '\n' || lines == [] then [[c]] + lines else [[c] + lines[0]] + lines[1..]
  }

  /** The lines of a file, each with its newline; the last may lack it. */
  function Lines(text: string): seq<string> {
    if text == "" then [] else InFront(text[0], Lines(text[1..]))
  }

  function ParseText(text: string): Result<seq<PatchValue>> { ParseLines(Lines(text)) }

  // ----- what can be read back -----

  predicate GoodChunk(c: ChunkValue) {
    c.srcPos >= 0 && c.dstPos >= 0 && forall k :: 0 <= k < |c.lines| ==> GoodLine(c.lines[k])
  }

  predicate GoodPatch(p: PatchValue) {
    OneLine(p.src) && OneLine(p.dst) && forall k :: 0 <= k < |p.chunks| ==> GoodChunk(p.chunks[k])
  }

  /**
   * No name or text holds a newline, no position is negative, every line has its type, no removed line
   * starts with "-- " and no added one with "++ ".
   */
  predicate Printable(patches: seq<PatchValue>) {
    forall k :: 0 <= k < |patches| ==> GoodPatch(patches[k])
  }

  /** The write methods raise an exception on a line whose type is not set. */
  predicate ChunkTyped(c: ChunkValue) { Unset !in c.lines }

  predicate PatchTyped(p: PatchValue) { forall k :: 0 <= k < |p.chunks| ==> ChunkTyped(p.chunks[k]) }

  predicate AllTyped(patches: seq<PatchValue>) { forall k :: 0 <= k < |patches| ==> PatchTyped(patches[k]) }

  lemma StepKeepsPrintable(st: State, r: Read)
    requires Valid(st) && Printable(st.patches) && (r.Other? || Good(r))
    ensures Step(st, r).Ok? ==> Printable(Step(st, r).value.patches)
  {
    var n := |st.patches| - 1;
    match r
    case Body(line) =>
      if st.current >= 0 {
        AddLineKeepsGood(st.patches[st.current], line);
      }
    case _ =>
  }

  lemma AddLineKeepsGood(p: PatchValue, line: Line)
    requires GoodPatch(p) && GoodLine(line) && p.chunks != []
    ensures GoodPatch(AddLine(p, line))
  {
    var n := |p.chunks| - 1;
    var c := p.chunks[n];
    assert GoodChunk(c);
    assert GoodChunk(c.(lines := c.lines + [line]));
  }

  lemma {:induction false} ParseKeepsPrintable(st: State, lines: seq<string>)
    requires Valid(st) && Printable(st.patches)
    ensures ParseFrom(st, Classified(lines)).Ok? ==> Printable(ParseFrom(st, Classified(lines)).value.patches)
  {
    if lines != [] {
      var n := |lines| - 1;
      assert Classified(lines)[..n] == Classified(lines[..n]);
      ParseKeepsPrintable(st, lines[..n]);
      if ParseFrom(st, Classified(lines[..n])).Ok? {
        ClassifiedIsGood(lines[n]);
        StepKeepsPrintable(ParseFrom(st, Classified(lines[..n])).value, Classify(lines[n]));
      }
    }
  }

  // ----- reading back what was printed -----

  lemma {:induction false} ParseInTwo(st: State, a: seq<Read>, b: seq<Read>)
    requires Valid(st)
    ensures ParseFrom(st, a + b) ==
            match ParseFrom(st, a) { case Ok(mid) => ParseFrom(mid, b) case Failed(e) => Failed(e) }
  {
    if b == [] {
      assert a + b == a;
    } else {
      var n := |b| - 1;
      ParseInTwo(st, a, b[..n]);
      assert (a + b)[..|a + b| - 1] == a + b[..n];
    }
  }

  lemma ParseOne(st: State, r: Read)
    requires Valid(st)
    ensures ParseFrom(st, [r]) == Step(st, r)
  {
    assert [r][..0] == [];
  }

  lemma ParseSnoc(st: State, rs: seq<Read>, r: Read)
    requires Valid(st)
    ensures ParseFrom(st, rs + [r]) ==
            match ParseFrom(st, rs) { case Ok(mid) => Step(mid, r) case Failed(e) => Failed(e) }
  {
    assert (rs + [r])[..|rs|] == rs;
  }

  /** p with more lines in its last chunk. */
  function WithLines(p: PatchValue, lines: seq<Line>): PatchValue
    requires p.chunks != []
  {
    var n := |p.chunks| - 1;
    p.(chunks := p.chunks[n := p.chunks[n].(lines := p.chunks[n].lines + lines)])
  }

  lemma WithLinesSnoc(p: PatchValue, lines: seq<Line>, line: Line)
    requires p.chunks != []
    ensures AddLine(WithLines(p, lines), line) == WithLines(p, lines + [line])
    ensures WithLines(p, []) == p
  {
    var c := p.chunks[|p.chunks| - 1];
    assert c.lines + (lines + [line]) == c.lines + lines + [line];
    assert c.lines + [] == c.lines;
  }

  /** At the end of a set of patches, with p as the last one. */
  function AtPatch(before: seq<PatchValue>, p: PatchValue, current: int): State { State(before + [p], current) }

  lemma {:induction false} LinesParse(before: seq<PatchValue>, p: PatchValue, lines: seq<Line>)
    requires p.chunks != []
    ensures ParseFrom(AtPatch(before, p, |before|), LineReads(lines))
         == Ok(AtPatch(before, WithLines(p, lines), |before|))
  {
    if lines == [] {
      WithLinesSnoc(p, [], Unset);
    } else {
      var n := |lines| - 1;
      LinesParse(before, p, lines[..n]);
      ParseSnoc(AtPatch(before, p, |before|), LineReads(lines[..n]), Body(lines[n]));
      WithLinesSnoc(p, lines[..n], lines[n]);
      assert lines == lines[..n] + [lines[n]];
      var q := WithLines(p, lines[..n]);
      assert (before + [q])[|before| := AddLine(q, lines[n])] == before + [AddLine(q, lines[n])];
    }
  }

  lemma ChunkParse(before: seq<PatchValue>, p: PatchValue, current: int, c: ChunkValue)
    requires Valid(AtPatch(before, p, current))
    ensures ParseFrom(AtPatch(before, p, current), ChunkReads(c))
         == Ok(AtPatch(before, p.(chunks := p.chunks + [c]), |before|))
  {
    hide LineReads, ParseFrom;
    var st := AtPatch(before, p, current);
    var first := ChunkStart(c.srcPos, |SrcLines(c.lines)|, c.dstPos, |DstLines(c.lines)|);
    var q := p.(chunks := p.chunks + [c.(lines := [])]);
    ParseInTwo(st, [first], LineReads(c.lines));
    ParseOne(st, first);
    assert (before + [p])[|before| := q] == before + [q];
    assert Step(st, first) == Ok(AtPatch(before, q, |before|));
    LinesParse(before, q, c.lines);
    assert [] + c.lines == c.lines;
    assert q.chunks[|p.chunks| := c] == p.chunks + [c];
  }

  lemma {:induction false} ChunksParse(before: seq<PatchValue>, p: PatchValue, current: int, chunks: seq<ChunkValue>)
    requires Valid(AtPatch(before, p, current))
    ensures ParseFrom(AtPatch(before, p, current), ChunksReads(chunks))
         == Ok(AtPatch(before, p.(chunks := p.chunks + chunks), if chunks == [] then current else |before|))
  {
    if chunks == [] {
      assert p.chunks + chunks == p.chunks;
    } else {
      var n := |chunks| - 1;
      ChunksParse(before, p, current, chunks[..n]);
      hide ParseFrom, Step, ChunkReads;
      ParseInTwo(AtPatch(before, p, current), ChunksReads(chunks[..n]), ChunkReads(chunks[n]));
      var q := p.(chunks := p.chunks + chunks[..n]);
      ChunkParse(before, q, if n == 0 then current else |before|, chunks[n]);
      assert q.chunks + [chunks[n]] == p.chunks + chunks;
    }
  }

  lemma PatchParsed(st: State, p: PatchValue)
    requires Valid(st)
    ensures ParseFrom(st, PatchReads(p))
         == Ok(State(st.patches + [p], if p.chunks == [] then st.current else |st.patches|))
  {
    hide ParseFrom, ChunksReads;
    var a := PatchValue(p.src, "", []);
    var b := PatchValue(p.src, p.dst, []);
    assert [SrcFile(p.src), DstFile(p.dst)] == [SrcFile(p.src)] + [DstFile(p.dst)];
    ParseInTwo(st, [SrcFile(p.src), DstFile(p.dst)], ChunksReads(p.chunks));
    ParseInTwo(st, [SrcFile(p.src)], [DstFile(p.dst)]);
    ParseOne(st, SrcFile(p.src));
    ParseOne(AtPatch(st.patches, a, st.current), DstFile(p.dst));
    assert (st.patches + [a])[|st.patches| := b] == st.patches + [b];
    ChunksParse(st.patches, b, st.current, p.chunks);
    assert b.(chunks := [] + p.chunks) == p;
  }

  lemma ReadsSnoc(patches: seq<PatchValue>)
    requires patches != []
    ensures var n := |patches| - 1;
      Reads(patches) == Reads(patches[..n]) + PatchReads(patches[n]) && patches == patches[..n] + [patches[n]]
  {
    hide PatchReads;
  }

  lemma {:induction false} ReadsParsed(patches: seq<PatchValue>)
    ensures ParseFrom(START, Reads(patches)).Ok? && ParseFrom(START, Reads(patches)).value.patches == patches
  {
    if patches != [] {
      hide ParseFrom, PatchReads, Reads;
      var before, p := patches[..|patches| - 1], patches[|patches| - 1];
      ReadsSnoc(patches);
      ReadsParsed(before);
      ParseInTwo(START, Reads(before), PatchReads(p));
      PatchParsed(ParseFrom(START, Reads(before)).value, p);
    }
  }

  // ----- from the text back to the lines -----

  predicate AllGood(rs: seq<Read>) { forall k :: 0 <= k < |rs| ==> Good(rs[k]) }

  function ShownLines(rs: seq<Read>): seq<string> {
    if rs == [] then [] else ShownLines(rs[..|rs| - 1]) + [Show(rs[|rs| - 1])]
  }

  lemma {:induction false} LineAlone(line: string)
    requires IsLine(line)
    ensures Lines(line) == [line]
  {
    var init, tail := line[..|line| - 1], line[1..];
    assert line == [line[0]] + tail;
    if |line| > 1 {
      assert init[0] == line[0] && tail[..|tail| - 1] == init[1..];
      LineAlone(tail);
      assert InFront(line[0], [tail]) == [[line[0]] + tail];
    } else {
      assert tail == "" && line == [line[0]];
      assert Lines(line) == InFront(line[0], Lines(tail)) == InFront(line[0], []);
      assert InFront(line[0], []) == [[line[0]]];
    }
  }

  lemma InFrontOfTwo(c: char, x: seq<string>, y: seq<string>)
    requires c == '\n' || x != []
    ensures InFront(c, x + y) == InFront(c, x) + y
  {
    if c != '\n' {
      assert (x + y)[1..] == x[1..] + y;
    }
  }

  /** A text that ends in a newline can be split there. */
  lemma {:induction false} LinesInTwo(a: string, b: string)
    requires a == "" || a[|a| - 1] == '\n'
    ensures Lines(a + b) == Lines(a) + Lines(b)
  {
    if a == "" {
      assert a + b == b;
    } else {
      LinesInTwo(a[1..], b);
      assert (a + b)[1..] == a[1..] + b && (a + b)[0] == a[0];
      assert a[1..] != "" ==> Lines(a[1..]) != [];
      hide InFront;
      InFrontOfTwo(a[0], Lines(a[1..]), Lines(b));
    }
  }

  lemma {:induction false} TextLines(rs: seq<Read>)
    requires AllGood(rs)
    ensures Lines(Text(rs)) == ShownLines(rs) && (rs != [] ==> Text(rs) != "" && Text(rs)[|Text(rs)| - 1] == '\n')
  {
    if rs != [] {
      var n := |rs| - 1;
      TextLines(rs[..n]);
      hide Lines;
      ShowIsLine(rs[n]);
      LineAlone(Show(rs[n]));
      LinesInTwo(Text(rs[..n]), Show(rs[n]));
    } else {
      assert Text(rs) == "";
    }
  }

  lemma ClassifiedSnoc(lines: seq<string>, line: string)
    ensures Classified(lines + [line]) == Classified(lines) + [Classify(line)]
  {
    hide Classify;
  }

  lemma GoodPrefix(rs: seq<Read>, n: nat)
    requires AllGood(rs) && n <= |rs|
    ensures AllGood(rs[..n]) && (n < |rs| ==> Good(rs[n]))
  {
    hide Good;
  }

  lemma LastShown(rs: seq<Read>)
    requires rs != []
    ensures ShownLines(rs) == ShownLines(rs[..|rs| - 1]) + [Show(rs[|rs| - 1])]
  {
    hide Show;
  }

  lemma {:induction false} ShownClassified(rs: seq<Read>)
    requires AllGood(rs)
    ensures Classified(ShownLines(rs)) == rs
  {
    if rs != [] {
      hide Classify, Show, Classified, Good, AllGood, ShownLines;
      var p, r := rs[..|rs| - 1], rs[|rs| - 1];
      GoodPrefix(rs, |rs| - 1);
      LastShown(rs);
      assert rs == p + [r];
      ShownClassified(p);
      ShowClassified(r);
      ClassifiedSnoc(ShownLines(p), Show(r));
    }
  }

  lemma {:induction false} LineReadsGood(lines: seq<Line>)
    requires forall k :: 0 <= k < |lines| ==> GoodLine(lines[k])
    ensures AllGood(LineReads(lines))
  {
    if lines != [] {
      LineReadsGood(lines[..|lines| - 1]);
    }
  }

  lemma {:induction false} ChunksReadsGood(chunks: seq<ChunkValue>)
    requires forall k :: 0 <= k < |chunks| ==> GoodChunk(chunks[k])
    ensures AllGood(ChunksReads(chunks))
  {
    if chunks != [] {
      var n := |chunks| - 1;
      ChunksReadsGood(chunks[..n]);
      assert GoodChunk(chunks[n]);
      LineReadsGood(chunks[n].lines);
    }
  }

  lemma {:induction false} ReadsGood(patches: seq<PatchValue>)
    requires Printable(patches)
    ensures AllGood(Reads(patches))
  {
    if patches != [] {
      var n := |patches| - 1;
      ReadsGood(patches[..n]);
      assert GoodPatch(patches[n]);
      ChunksReadsGood(patches[n].chunks);
    }
  }

  /** What the write methods leave in the file, unless one of them raises. */
  function Written(patches: seq<PatchValue>): Option<string> {
    if AllTyped(patches) then Some(Text(Reads(patches))) else None
  }

  lemma PrintableIsTyped(patches: seq<PatchValue>)
    requires Printable(patches)
    ensures AllTyped(patches)
  {
    forall k | 0 <= k < |patches| ensures PatchTyped(patches[k]) {
      assert GoodPatch(patches[k]);
      forall j | 0 <= j < |patches[k].chunks| ensures ChunkTyped(patches[k].chunks[j]) {
        assert GoodChunk(patches[k].chunks[j]);
      }
    }
  }

  /** Writing raises an exception exactly if some line, anywhere in the patches, never had its type set. */
  lemma WrittenIff(patches: seq<PatchValue>)
    ensures Written(patches) == None <==>
      exists p, c :: p in patches && c in p.chunks && Unset in c.lines
    ensures Written(patches).Some? ==> Written(patches).value == Text(Reads(patches))
  {
    hide Text, Reads;
    if !AllTyped(patches) {
      var k :| 0 <= k < |patches| && !PatchTyped(patches[k]);
      var j :| 0 <= j < |patches[k].chunks| && !ChunkTyped(patches[k].chunks[j]);
      assert patches[k] in patches && patches[k].chunks[j] in patches[k].chunks;
    } else {
      forall p, c | p in patches && c in p.chunks ensures Unset !in c.lines {
        var k :| 0 <= k < |patches| && patches[k] == p;
        var j :| 0 <= j < |p.chunks| && p.chunks[j] == c;
        assert PatchTyped(patches[k]) && ChunkTyped(p.chunks[j]);
      }
    }
  }

  /** Printing a patch set and parsing the text gives the patch set back exactly when it is printable. */
  lemma RoundTrip(patches: seq<PatchValue>)
    ensures Written(patches).Some? && ParseText(Written(patches).value) == Ok(patches) <==> Printable(patches)
  {
    if Printable(patches) {
      PrintableIsTyped(patches);
      ReadsGood(patches);
      TextLines(Reads(patches));
      ShownClassified(Reads(patches));
      ReadsParsed(patches);
    } else {
      ParsedIsPrintable(Lines(Text(Reads(patches))));
    }
  }

  /** A removed line that starts with "-- " is one of those that do not come back. */
  lemma RemovedRuleIsLost(rest: string)
    ensures var patches := [PatchValue("a", "b", [ChunkValue(1, 1, [Src("-- " + rest)])])];
      Written(patches).Some? && ParseText(Written(patches).value) != Ok(patches)
  {
    var line := Src("-- " + rest);
    var patches := [PatchValue("a", "b", [ChunkValue(1, 1, [line])])];
    assert !GoodLine(line) by { assert "-- " <= line.text; }
    assert patches[0].chunks[0].lines[0] == line;
    assert !Printable(patches);
    RoundTrip(patches);
  }

  /** Whatever can be parsed is printable, and so printing it and parsing again changes nothing. */
  lemma ParsedIsPrintable(lines: seq<string>)
    ensures ParseLines(lines).Ok? ==> Printable(ParseLines(lines).value)
  {
    ParseKeepsPrintable(START, lines);
  }

  lemma ParseAgain(lines: seq<string>)
    requires ParseLines(lines).Ok?
    ensures var patches := ParseLines(lines).value;
      Written(patches).Some? && ParseText(Written(patches).value) == Ok(patches)
  {
    ParsedIsPrintable(lines);
    RoundTrip(ParseLines(lines).value);
  }
}
