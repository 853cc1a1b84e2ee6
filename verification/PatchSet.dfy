/** PatchChunk, Patch and parse_patchset of utils/check-style.py as objects that are filled step by step. */
module PatchSet {
  import opened Options
  import opened PatchText
  import opened PatchParse

  /** The file object that is written to. */
  class File {
    var text: string

    constructor ()
      ensures text == ""
    {
      text := "";
    }

    method Write(s: string)
      modifies this
      ensures text == old(text) + s
    {
      text := text + s;
    }
  }

  class PatchChunk {
    var srcPos: int
    var dstPos: int
    var lines: seq<Line>

    constructor (srcPos: int, dstPos: int)
      ensures Value() == ChunkValue(srcPos, dstPos, [])
    {
      this.srcPos, this.dstPos, this.lines := srcPos, dstPos, [];
    }

    function Value(): ChunkValue
      reads this
    {
      ChunkValue(srcPos, dstPos, lines)
    }

    method AddLine(line: Line)
      modifies this
      ensures Value() == old(Value()).(lines := old(lines) + [line])
    {
      lines := lines + [line];
    }

    method GetSrc() returns (src: seq<Line>)
      ensures src == SrcLines(lines) && exists at :: Picks(lines, true, at, src)
    {
      src := [];
      for i := 0 to |lines|
        invariant src == SrcLines(lines[..i])
      {
        assert lines[..i + 1][..i] == lines[..i];
        if lines[i].IsSrc() {
          src := src + [lines[i]];
        }
      }
      assert lines[..|lines|] == lines;
      ghost var at := SidesInOrder(lines, true);
    }

    method GetDst() returns (dst: seq<Line>)
      ensures dst == DstLines(lines) && exists at :: Picks(lines, false, at, dst)
    {
      dst := [];
      for i := 0 to |lines|
        invariant dst == DstLines(lines[..i])
      {
        assert lines[..i + 1][..i] == lines[..i];
        if lines[i].IsDst() {
          dst := dst + [lines[i]];
        }
      }
      assert lines[..|lines|] == lines;
      ghost var at := SidesInOrder(lines, false);
    }

    method WriteHeader(f: File)
      modifies f
      ensures f.text == old(f.text) + Show(ChunkStart(srcPos, |SrcLines(lines)|, dstPos, |DstLines(lines)|))
    {
      var src := GetSrc();
      var dst := GetDst();
      f.Write("@@ -" + Shown(srcPos) + "," + Shown(|src|) + " +" + Shown(dstPos) + "," + Shown(|dst|) + " @@\n");
    }

    /** Stops at a line without a type, which raises an exception. */
    method Write(f: File) returns (ok: bool)
      modifies f
      ensures ok <==> ChunkTyped(Value())
      ensures ok ==> f.text == old(f.text) + Text(ChunkReads(Value()))
    {
      hide Show, Text, LineReads, SrcLines, DstLines;
      ghost var first := ChunkStart(srcPos, |SrcLines(lines)|, dstPos, |DstLines(lines)|);
      WriteHeader(f);
      FirstText(first);
      assert lines[..0] == [];
      for i := 0 to |lines|
        invariant Unset !in lines[..i]
        invariant f.text == old(f.text) + Text([first] + LineReads(lines[..i]))
      {
        NextLine(first, lines, i);
        ok := WriteLine(lines[i], f);
        if !ok {
          return false;
        }
        Associates(old(f.text), Text([first] + LineReads(lines[..i])), Show(Body(lines[i])));
      }
      assert lines[..|lines|] == lines;
      return true;
    }
  }

  lemma FirstText(first: Read)
    ensures Text([first] + LineReads([])) == Show(first)
  {
    hide Show;
    assert [first] + LineReads([]) == [first] && [first][..0] == [];
  }

  lemma NextLine(first: Read, lines: seq<Line>, i: nat)
    requires i < |lines|
    ensures Text([first] + LineReads(lines[..i + 1])) == Text([first] + LineReads(lines[..i])) + Show(Body(lines[i]))
    ensures Unset in lines[..i + 1] <==> Unset in lines[..i] || lines[i] == Unset
  {
    hide Show, Text;
    assert lines[..i + 1] == lines[..i] + [lines[i]] && lines[..i + 1][..i] == lines[..i];
    TextSnoc([first] + LineReads(lines[..i]), Body(lines[i]));
    assert [first] + LineReads(lines[..i + 1]) == [first] + LineReads(lines[..i]) + [Body(lines[i])];
  }

  /** PatchChunkLine.write. */
  method WriteLine(line: Line, f: File) returns (ok: bool)
    modifies f
    ensures ok <==> line != Unset
    ensures f.text == old(f.text) + Show(Body(line))
  {
    ok := true;
    match line {
      case Src(text) => f.Write("-" + text + "\n");
      case Dst(text) => f.Write("+" + text + "\n");
      case Both(text) => f.Write(" " + text + "\n");
      case Unset => ok := false;
    }
  }

  lemma TextSnoc(rs: seq<Read>, r: Read)
    ensures Text(rs + [r]) == Text(rs) + Show(r)
    ensures Text([]) == ""
  {
    assert (rs + [r])[..|rs|] == rs;
  }

  lemma Associates(x: string, y: string, z: string)
    ensures x + y + z == x + (y + z)
  {
  }

  lemma {:induction false} TextConcat(a: seq<Read>, b: seq<Read>)
    ensures Text(a + b) == Text(a) + Text(b)
  {
    hide Show, Text;
    if b == [] {
      assert a + b == a;
      TextSnoc([], Other);
      assert Text(a) + "" == Text(a);
    } else {
      var n := |b| - 1;
      TextConcat(a, b[..n]);
      TextSnoc(a + b[..n], b[n]);
      TextSnoc(b[..n], b[n]);
      assert a + b == (a + b[..n]) + [b[n]] && b == b[..n] + [b[n]];
      Associates(Text(a), Text(b[..n]), Show(b[n]));
    }
  }

  function Values(chunks: seq<PatchChunk>): (r: seq<ChunkValue>)
    reads chunks
    ensures |r| == |chunks|
  {
    if chunks == [] then [] else Values(chunks[..|chunks| - 1]) + [chunks[|chunks| - 1].Value()]
  }

  lemma {:induction false} ValueAt(chunks: seq<PatchChunk>, i: nat)
    requires i < |chunks|
    ensures Values(chunks)[i] == chunks[i].Value()
  {
    if i < |chunks| - 1 {
      ValueAt(chunks[..|chunks| - 1], i);
    }
  }

  class Patch {
    var src: string
    var dst: string
    var chunks: seq<PatchChunk>

    constructor ()
      ensures src == "" && dst == "" && chunks == []
    {
      src, dst, chunks := "", "", [];
    }

    function Value(): PatchValue
      reads this, chunks
    {
      PatchValue(src, dst, Values(chunks))
    }

    method AddChunk(chunk: PatchChunk)
      modifies this`chunks
      ensures chunks == old(chunks) + [chunk]
    {
      chunks := chunks + [chunk];
    }

    method SetSrc(name: string)
      modifies this`src
      ensures src == name
    {
      src := name;
    }

    method SetDst(name: string)
      modifies this`dst
      ensures dst == name
    {
      dst := name;
    }

    method Write(f: File) returns (ok: bool)
      modifies f
      ensures ok <==> PatchTyped(Value())
      ensures ok ==> f.text == old(f.text) + Text(PatchReads(Value()))
    {
      ghost var value := Value();
      ghost var heading := [SrcFile(src), DstFile(dst)];
      hide Show, Text, ChunkReads, ChunksReads;
      f.Write("--- " + src + "\n");
      f.Write("+++ " + dst + "\n");
      HeadingText(value);
      assert value.chunks[..0] == [];
      Associates(old(f.text), "--- " + src + "\n", "+++ " + dst + "\n");
      for i := 0 to |chunks|
        invariant Value() == value
        invariant forall k :: 0 <= k < i ==> ChunkTyped(value.chunks[k])
        invariant f.text == old(f.text) + Text(heading + ChunksReads(value.chunks[..i]))
      {
        ValueAt(chunks, i);
        ok := chunks[i].Write(f);
        if !ok {
          return false;
        }
        NextChunk(heading, value.chunks, i);
        Associates(old(f.text), Text(heading + ChunksReads(value.chunks[..i])), Text(ChunkReads(value.chunks[i])));
      }
      assert value.chunks[..|chunks|] == value.chunks;
      return true;
    }
  }

  lemma HeadingText(p: PatchValue)
    ensures Text([SrcFile(p.src), DstFile(p.dst)] + ChunksReads([])) == "--- " + p.src + "\n" + ("+++ " + p.dst + "\n")
  {
    var a, b := SrcFile(p.src), DstFile(p.dst);
    assert [a, b] + ChunksReads([]) == [a] + [b] && [a] == [] + [a];
    TextSnoc([], a);
    TextSnoc([a], b);
  }

  lemma NextChunk(heading: seq<Read>, chunks: seq<ChunkValue>, i: nat)
    requires i < |chunks|
    ensures Text(heading + ChunksReads(chunks[..i + 1]))
         == Text(heading + ChunksReads(chunks[..i])) + Text(ChunkReads(chunks[i]))
  {
    hide Text, ChunkReads;
    assert chunks[..i + 1][..i] == chunks[..i];
    var before := heading + ChunksReads(chunks[..i]);
    TextConcat(before, ChunkReads(chunks[i]));
    assert heading + ChunksReads(chunks[..i + 1]) == before + ChunkReads(chunks[i]);
  }

  // ----- parse_patchset -----

  /** No patch and no chunk occurs twice. */
  ghost predicate Apart(ps: seq<Patch>)
    reads ps
  {
    && (forall i, j :: 0 <= i < j < |ps| ==> ps[i] != ps[j])
    && (forall i, k, j, l | 0 <= i < |ps| && 0 <= k < |ps[i].chunks| && 0 <= j < |ps| && 0 <= l < |ps[j].chunks| ::
          ps[i].chunks[k] == ps[j].chunks[l] ==> i == j && k == l)
  }

  ghost function ChunksOf(ps: seq<Patch>): set<object>
    reads ps
  {
    set p, c | p in ps && c in p.chunks :: c
  }

  ghost predicate Holds(ps: seq<Patch>, values: seq<PatchValue>)
    reads ps, ChunksOf(ps)
  {
    && |values| == |ps|
    && forall i | 0 <= i < |ps| ::
         assert forall c :: c in ps[i].chunks ==> c in ChunksOf(ps);
         ps[i].Value() == values[i]
  }

  /** The objects built so far stand for st; chunk is the current one. */
  ghost predicate Tracks(ps: seq<Patch>, st: State, chunk: PatchChunk?)
    reads ps, ChunksOf(ps)
  {
    && Valid(st) && Holds(ps, st.patches) && Apart(ps)
    && if st.current < 0 then chunk == null
       else ps[st.current].chunks != [] && chunk == ps[st.current].chunks[|ps[st.current].chunks| - 1]
  }

  lemma {:induction false} ValuesAre(chunks: seq<PatchChunk>, values: seq<ChunkValue>)
    requires |values| == |chunks| && forall i :: 0 <= i < |chunks| ==> chunks[i].Value() == values[i]
    ensures Values(chunks) == values
  {
    if chunks != [] {
      var n := |chunks| - 1;
      ValuesAre(chunks[..n], values[..n]);
      assert values == values[..n] + [values[n]];
    }
  }

  method BodyStep(ghost ps: seq<Patch>, ghost st: State, chunk: PatchChunk, line: Line)
    requires Tracks(ps, st, chunk)
    modifies chunk
    ensures Step(st, Body(line)).Ok? && Tracks(ps, Step(st, Body(line)).value, chunk)
  {
    ghost var p := ps[st.current];
    ghost var n := |p.chunks| - 1;
    forall i, k | 0 <= i < |ps| && 0 <= k < |ps[i].chunks| ensures st.patches[i].chunks[k] == ps[i].chunks[k].Value() {
      ValueAt(ps[i].chunks, k);
    }
    chunk.AddLine(line);
    ghost var after := Step(st, Body(line)).value;
    forall i | 0 <= i < |ps| ensures ps[i].Value() == after.patches[i] {
      ValuesAre(ps[i].chunks, after.patches[i].chunks);
    }
  }

  /** The value of the patch that has just got a new chunk. */
  lemma ChunkJoined(values: seq<ChunkValue>, chunks: seq<PatchChunk>, chunk: PatchChunk, c: ChunkValue)
    requires |values| == |chunks| && forall k :: 0 <= k < |chunks| ==> chunks[k].Value() == values[k]
    requires chunk.Value() == c
    ensures Values(chunks + [chunk]) == values + [c]
  {
    var more := chunks + [chunk];
    forall k | 0 <= k < |more| ensures more[k].Value() == (values + [c])[k] {
      if k < |chunks| {
        assert more[k] == chunks[k];
      }
    }
    ValuesAre(more, values + [c]);
  }

  /** A chunk that is in no patch yet, and may join any of them. */
  ghost predicate NewChunk(ps: seq<Patch>, chunk: PatchChunk)
    reads ps
  {
    forall i, k :: 0 <= i < |ps| && 0 <= k < |ps[i].chunks| ==> ps[i].chunks[k] != chunk
  }

  method JoinChunk(ghost ps: seq<Patch>, patch: Patch, chunk: PatchChunk)
    requires Apart(ps) && ps != [] && patch == ps[|ps| - 1] && NewChunk(ps, chunk)
    modifies patch`chunks
    ensures patch.chunks == old(patch.chunks) + [chunk] && Apart(ps)
  {
    patch.AddChunk(chunk);
  }

  lemma ChunkJoins(ps: seq<Patch>, st: State, r: Read, chunk: PatchChunk)
    requires Valid(st) && |ps| == |st.patches| && ps != [] && Apart(ps) && r.ChunkStart?
    requires forall i :: 0 <= i < |ps| - 1 ==> ps[i].Value() == st.patches[i]
    requires var p := st.patches[|ps| - 1];
      ps[|ps| - 1].Value() == p.(chunks := p.chunks + [ChunkValue(r.srcPos, r.dstPos, [])])
    requires ps[|ps| - 1].chunks != [] && chunk == ps[|ps| - 1].chunks[|ps[|ps| - 1].chunks| - 1]
    ensures Step(st, r).Ok? && Tracks(ps, Step(st, r).value, chunk)
  {
    hide Values, Apart;
    assert Holds(ps, Step(st, r).value.patches);
  }

  method ChunkStep(ghost ps: seq<Patch>, ghost st: State, ghost current: PatchChunk?, patch: Patch, r: Read)
      returns (chunk: PatchChunk)
    requires Tracks(ps, st, current) && ps != [] && patch == ps[|ps| - 1] && r.ChunkStart?
    modifies patch`chunks
    ensures fresh(chunk)
    ensures Step(st, r).Ok? && Tracks(ps, Step(st, r).value, chunk)
  {
    ghost var n := |ps| - 1;
    ghost var values, was := st.patches[n].chunks, patch.chunks;
    forall k | 0 <= k < |was| ensures was[k].Value() == values[k] {
      ValueAt(was, k);
    }
    chunk := new PatchChunk(r.srcPos, r.dstPos);
    hide Values;
    JoinChunk(ps, patch, chunk);
    ChunkJoined(values, was, chunk, ChunkValue(r.srcPos, r.dstPos, []));
    assert forall i :: 0 <= i < n ==> ps[i] != patch;
    hide Apart, Step;
    ChunkJoins(ps, st, r, chunk);
  }

  method DstStep(ghost ps: seq<Patch>, ghost st: State, ghost current: PatchChunk?, patch: Patch, name: string)
    requires Tracks(ps, st, current) && ps != [] && patch == ps[|ps| - 1]
    modifies patch`dst
    ensures Step(st, DstFile(name)).Ok? && Tracks(ps, Step(st, DstFile(name)).value, current)
  {
    hide Values;
    ghost var n := |ps| - 1;
    assert forall i :: 0 <= i < n ==> ps[i] != patch;
    patch.SetDst(name);
    ghost var after := Step(st, DstFile(name)).value;
    assert Apart(ps);
    assert forall i :: 0 <= i < |ps| ==> ps[i].Value() == after.patches[i];
    hide Apart;
    assert Holds(ps, after.patches);
  }

  lemma PatchJoins(ps: seq<Patch>, st: State, current: PatchChunk?, patch: Patch)
    requires Tracks(ps, st, current) && patch !in ps && patch.chunks == [] && patch.dst == ""
    ensures Tracks(ps + [patch], Step(st, SrcFile(patch.src)).value, current)
  {
    var more := ps + [patch];
    assert forall i :: 0 <= i < |ps| ==> more[i] == ps[i];
    assert Apart(more);
    hide Apart;
    assert patch.Value() == PatchValue(patch.src, "", []);
    hide Values;
    assert Holds(more, Step(st, SrcFile(patch.src)).value.patches);
  }

  method SrcStep(ghost ps: seq<Patch>, ghost st: State, ghost current: PatchChunk?, name: string)
      returns (patch: Patch)
    requires Tracks(ps, st, current)
    ensures fresh(patch)
    ensures Tracks(ps + [patch], Step(st, SrcFile(name)).value, current)
  {
    patch := new Patch();
    patch.SetSrc(name);
    assert Tracks(ps, st, current);
    hide *;
    PatchJoins(ps, st, current, patch);
  }

  lemma TracksFacts(ps: seq<Patch>, st: State, current: PatchChunk?)
    requires Tracks(ps, st, current)
    ensures |ps| == |st.patches| && (current == null <==> st.current < 0) && Holds(ps, st.patches)
  {
  }

  /** When the loop ends early, and what it has parsed otherwise. */
  lemma NextRead(generator: seq<string>, i: nat, st: State)
    requires i < |generator| && Valid(st) && ParseFrom(START, Classified(generator)[..i]) == Ok(st)
    ensures var r := Step(st, Classify(generator[i]));
      && ParseFrom(START, Classified(generator)[..i + 1]) == r
      && (r.Failed? ==> ParseLines(generator) == Failed(r.error))
  {
    hide Classify, Step;
    var rs := Classified(generator);
    ParseSnoc(START, rs[..i], rs[i]);
    assert rs[..i + 1] == rs[..i] + [rs[i]] && rs == rs[..i + 1] + rs[i + 1..];
    ParseInTwo(START, rs[..i + 1], rs[i + 1..]);
  }

  /** Whether one turn of the loop raises. */
  lemma StepOutcome(st: State, r: Read)
    requires Valid(st)
    ensures (r.DstFile? || r.ChunkStart?) && st.patches == [] ==> Step(st, r) == Failed(AttributeError)
    ensures r.Body? && st.current < 0 ==> Step(st, r) == Failed(UnboundLocalError)
    ensures r.Other? ==> Step(st, r) == Failed(BadLine)
    ensures r.SrcFile? ==> Step(st, r).Ok?
  {
  }

  /**
   * parse_patchset: the objects it returns stand for what the lines are parsed to, and it raises
   * an exception on the same inputs.
   */
  method ParsePatchset(generator: seq<string>) returns (patchset: seq<Patch>, error: Option<Error>)
    ensures match ParseLines(generator) {
              case Ok(values) => error == None && Holds(patchset, values)
              case Failed(e) => error == Some(e)
            }
  {
    hide Tracks, Step, Holds, Classify, ParseFrom, Valid;
    patchset, error := [], None;
    var currentPatch: Patch? := null;
    var currentChunk: PatchChunk? := null;
    ghost var st := START;
    Nothing(Classified(generator));
    for i := 0 to |generator|
      invariant Valid(st) && ParseFrom(START, Classified(generator)[..i]) == Ok(st)
      invariant Tracks(patchset, st, currentChunk)
      invariant if patchset == [] then currentPatch == null else currentPatch == patchset[|patchset| - 1]
      invariant currentPatch != null ==> fresh(currentPatch)
      invariant currentChunk != null ==> fresh(currentChunk)
    {
      var r := Classify(generator[i]);
      NextRead(generator, i, st);
      StepOutcome(st, r);
      TracksFacts(patchset, st, currentChunk);
      match r {
        case SrcFile(name) =>
          currentPatch := SrcStep(patchset, st, currentChunk, name);
          patchset := patchset + [currentPatch];
        case DstFile(name) =>
          if currentPatch == null {
            return patchset, Some(AttributeError);
          }
          DstStep(patchset, st, currentChunk, currentPatch, name);
        case ChunkStart(_, _, _, _) =>
          if currentPatch == null {
            return patchset, Some(AttributeError);
          }
          currentChunk := ChunkStep(patchset, st, currentChunk, currentPatch, r);
        case Body(line) =>
          if currentChunk == null {
            return patchset, Some(UnboundLocalError);
          }
          BodyStep(patchset, st, currentChunk, line);
        case Other =>
          return patchset, Some(BadLine);
      }
      st := Step(st, r).value;
    }
    TracksFacts(patchset, st, currentChunk);
    assert Classified(generator)[..|generator|] == Classified(generator);
  }

  lemma Nothing(rs: seq<Read>)
    ensures rs[..0] == [] && ParseFrom(START, rs[..0]) == Ok(START) && Valid(START) && Tracks([], START, null)
  {
  }
}
