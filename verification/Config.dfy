/** Configurations as lists of lines, and their lookup: `miniconf.c` and the line helpers of
    `miniconf.h`. */
module Config {
  import opened CStrings
  import opened ConfigSpec
  import opened Options

  const NUL: char := '\0'

  class Config {
    var lines: seq<string>

    constructor ()
      ensures lines == []
    {
      lines := [];
    }

    method AddLine(line: string)
      modifies this
      ensures lines == old(lines) + [line]
    {
      lines := lines + [line];
    }

    /** Appends the lines from `startLine` to `endLine`, each with `indent` columns cut off. */
    method AddAllLinesAdv(src: seq<string>, startLine: nat, endLine: nat, indent: nat)
      requires startLine <= endLine < |src|
      requires forall i :: startLine <= i <= endLine ==> indent <= |src[i]|
      modifies this
      ensures lines == old(lines) + CutLines(src[startLine..endLine + 1], indent)
    {
      for i := startLine to endLine + 1
        invariant lines == old(lines) + CutLines(src[startLine..i], indent)
      {
        assert src[startLine..i + 1] == src[startLine..i] + [src[i]];
        AddLine(src[i][indent..]);
      }
    }

    method AddAllLines(src: seq<string>)
      modifies this
      ensures lines == old(lines) + src
    {
      if |src| == 0 {
        return;
      }
      AddAllLinesAdv(src, 0, |src| - 1, 0);
      assert src[0..|src|] == src && CutLines(src, 0) == src;
    }
  }

  function CutLines(lines: seq<string>, indent: nat): (r: seq<string>)
    requires forall i :: 0 <= i < |lines| ==> indent <= |lines[i]|
    ensures |r| == |lines|
  {
    seq(|lines|, i requires 0 <= i < |lines| => lines[i][indent..])
  }

  /** How many lines at the start are indented. */
  function BlockLength(lines: seq<string>): (n: nat)
    ensures n <= |lines|
    ensures forall i :: 0 <= i < n ==> Indented(lines[i])
    ensures n < |lines| ==> !Indented(lines[n])
  {
    if lines == [] || !Indented(lines[0]) then 0 else 1 + BlockLength(lines[1..])
  }

  lemma {:induction false} BlockIsCut(lines: seq<string>)
    requires LinesOk(lines)
    ensures forall i :: 0 <= i < BlockLength(lines) ==> STEP <= |lines[i]|
    ensures Block(lines) == CutLines(lines[..BlockLength(lines)], STEP)
  {
    if lines != [] && Indented(lines[0]) {
      BlockIsCut(lines[1..]);
      var n := BlockLength(lines);
      assert forall i :: 1 <= i < n ==> lines[i] == lines[1..][i - 1];
      assert lines[1..][..n - 1] == lines[..n][1..];
    }
  }

  /** Appends the first line of `cfg` with the key and the lines below it to `dest`. The flag is
      set when the key is found and otherwise left as it is. */
  method ConfigChild(dest: Config, cfg: seq<string>, child: string, isFound: bool) returns (found: bool)
    requires LinesOk(cfg) && NUL !in child
    modifies dest
    ensures match ChildLines(cfg, child)
      case None => found == isFound && dest.lines == old(dest.lines)
      case Some(lines) => found && dest.lines == old(dest.lines) + lines
  {
    var startLine := FindLine(cfg, child);
    if startLine == |cfg| {
      return isFound;
    }
    var endLine := startLine;
    ghost var below := cfg[startLine + 1..];
    BlockIsCut(below);
    for i := startLine + 1 to |cfg|
      invariant endLine == i - 1 && endLine - startLine <= BlockLength(below)
    {
      if Indented(cfg[i]) {
        endLine := endLine + 1;
      } else {
        break;
      }
    }
    assert endLine - startLine == BlockLength(below);
    dest.AddLine(cfg[startLine]);
    if endLine - startLine > 0 {
      dest.AddAllLinesAdv(cfg, startLine + 1, endLine, STEP);
      assert cfg[startLine + 1..endLine + 1] == below[..BlockLength(below)];
    }
    return true;
  }

  /** The search loop: the first line at the outermost level with the key. */
  method FindLine(cfg: seq<string>, child: string) returns (startLine: nat)
    requires LinesOk(cfg)
    ensures startLine <= |cfg|
    ensures forall j :: 0 <= j < startLine ==> !Names(cfg[j], child)
    ensures startLine < |cfg| ==> Names(cfg[startLine], child)
    ensures forall j :: 0 <= j < startLine ==> !Headed(cfg[j], child)
    ensures startLine < |cfg| ==> Headed(cfg[startLine], child)
    ensures ChildLines(cfg, child)
         == if startLine == |cfg| then None else Some([cfg[startLine]] + Block(cfg[startLine + 1..]))
  {
    for i := 0 to |cfg|
      invariant forall j :: 0 <= j < i ==> !Names(cfg[j], child) && !Headed(cfg[j], child)
      invariant ChildLines(cfg, child) == ChildLines(cfg[i..], child)
    {
      var line := cfg[i];
      ChildLinesStep(cfg, i, child);
      NamesIff(line, child);
      if Indented(line) {
        continue;
      }
      var col := Find(line, 0, ':');
      if col == |line| {
        continue;
      }
      if child != line[..col] {
        continue;
      }
      return i;
    }
    return |cfg|;
  }

  lemma ChildLinesStep(cfg: seq<string>, i: nat, child: string)
    requires LinesOk(cfg) && i < |cfg|
    ensures ChildLines(cfg[i..], child)
         == if Names(cfg[i], child) then Some([cfg[i]] + Block(cfg[i + 1..])) else ChildLines(cfg[i + 1..], child)
  {
    assert cfg[i..][1..] == cfg[i + 1..];
  }

  predicate CutAtSlashes(buf: seq<char>, p: string) {
    && |buf| == |p| + 1 && buf[|p|] == NUL
    && forall i :: 0 <= i < |p| ==> buf[i] == if p[i] == '/' then NUL else p[i]
  }

  /** Replaces every slash of the path copy by a terminator. */
  method CutPath(path: array<char>, ghost p: string)
    requires path.Length == |p| + 1 && path[..] == p + [NUL]
    modifies path
    ensures CutAtSlashes(path[..], p)
  {
    for i := 0 to path.Length - 1
      invariant path[|p|] == NUL
      invariant forall k :: 0 <= k < |p| ==> path[k] == if k < i && p[k] == '/' then NUL else p[k]
    {
      if path[i] == '/' {
        path[i] := NUL;
      }
    }
  }

  /** A C string read from the cut path is a segment. */
  lemma CutSegment(buf: seq<char>, p: string, start: nat)
    requires CutAtSlashes(buf, p) && start <= |p| && NUL !in p
    ensures NUL in buf[start..]
    ensures buf[start..start + Length(buf[start..], NUL)] == Segment(p, start)
    ensures NUL !in Segment(p, start)
  {
    var k, s := Find(p, start, '/'), Segment(p, start);
    assert buf[start..k] == s;
    assert forall i :: 0 <= i < |s| ==> s[i] == p[start + i];
    TerminatorFirst(s, NUL, buf[k + 1..]);
    assert buf[start..] == s + [NUL] + buf[k + 1..];
  }

  method ReadSegment(path: array<char>, ghost p: string, start: nat) returns (segment: string)
    requires CutAtSlashes(path[..], p) && start <= |p| && NUL !in p
    ensures segment == Segment(p, start) && NUL !in segment
  {
    var buf := path[..];
    CutSegment(buf, p, start);
    segment := buf[start..start + Length(buf[start..], NUL)];
  }

  /** The segments still to come when the loop over the path is at position `i`. */
  function Remaining(p: string, i: nat): seq<string>
    requires i <= |p|
  {
    if i == 0 then Segments(p) else SegmentsAfter(p, i)
  }

  lemma RemainingStep(p: string, i: nat)
    requires i < |p|
    ensures Remaining(p, i) ==
      if i == 0 then [Segment(p, 0)] + Remaining(p, 1)
      else if p[i] == '/' then [Segment(p, i + 1)] + Remaining(p, i + 1)
      else Remaining(p, i + 1)
  {}

  /** Either the walk so far has reached `lines`, or the path does not exist and nothing is left
      to look in. */
  ghost predicate Reached(cfg: seq<string>, all: seq<string>, lines: seq<string>, rest: seq<string>, lost: bool)
    requires LinesOk(cfg)
  {
    && LinesOk(lines)
    && if lost then lines == [] && Walk(cfg, all).None? else Walk(cfg, all) == Walk(lines, rest)
  }

  lemma ReachedStep(cfg: seq<string>, all: seq<string>, lines: seq<string>, key: string,
                    rest: seq<string>, lost: bool)
    requires LinesOk(cfg) && Reached(cfg, all, lines, [key] + rest, lost)
    ensures LinesOk(lines)
    ensures var next := ChildLines(lines, key);
      Reached(cfg, all, if next.Some? then next.value else [], rest, next.None?)
  {
    ChildLinesOk(lines, key);
    assert ([key] + rest)[1..] == rest;
  }

  /** Looks a path up and appends what is there to `dest`. Each step hands an unset flag to the
      search; when a key is missing the flag decides nothing but whether the search goes on in
      an empty configuration, so a missing path appends nothing either way. */
  method ConfigChildren(dest: Config, cfg: seq<string>, pathIn: string) returns (found: bool)
    requires LinesOk(cfg) && NUL !in pathIn
    modifies dest
    ensures match Walk(cfg, Segments(pathIn))
      case None => dest.lines == old(dest.lines)
      case Some(lines) => found && dest.lines == old(dest.lines) + lines
  {
    hide Walk, Segments, SegmentsAfter, ChildLines, Reached, LinesOk, Segment, Remaining;
    var len := |pathIn|;
    var path := new char[len + 1](i requires 0 <= i <= len => if i < len then pathIn[i] else NUL);
    assert path[..] == pathIn + [NUL];
    var res := new Config();
    res.AddAllLines(cfg);
    assert res.lines == cfg;
    CutPath(path, pathIn);
    StartOfPath(cfg, pathIn);
    ghost var lost := false;
    for i := 0 to len
      invariant fresh(res) && dest.lines == old(dest.lines)
      invariant CutAtSlashes(path[..], pathIn)
      invariant Reached(cfg, Segments(pathIn), res.lines, Remaining(pathIn, i), lost)
    {
      RemainingStep(pathIn, i);
      var start;
      if i == 0 {
        start := 0;
      } else if path[i] == NUL {
        start := i + 1;
      } else {
        continue;
      }
      var segment := ReadSegment(path, pathIn, start);
      ReachedStep(cfg, Segments(pathIn), res.lines, segment, Remaining(pathIn, i + 1), lost);
      lost := ChildLines(res.lines, segment).None?;
      var isFound, next := ConfigStep(res.lines, segment);
      if !isFound {
        return false;
      }
      res := next;
    }
    EndOfPath(cfg, pathIn, res.lines, lost);
    dest.AddAllLines(res.lines);
    return true;
  }

  /** One step of the loop over the path: a new configuration, and a flag that is only set. */
  method ConfigStep(lines: seq<string>, segment: string) returns (isFound: bool, next: Config)
    requires LinesOk(lines) && NUL !in segment
    ensures fresh(next)
    ensures var child := ChildLines(lines, segment);
      && next.lines == (if child.Some? then child.value else [])
      && (child.Some? ==> isFound)
  {
    next := new Config();
    isFound := *;
    isFound := ConfigChild(next, lines, segment, isFound);
    assert next.lines == (if ChildLines(lines, segment).Some? then ChildLines(lines, segment).value else []);
  }

  lemma StartOfPath(cfg: seq<string>, p: string)
    requires LinesOk(cfg)
    ensures Reached(cfg, Segments(p), cfg, Remaining(p, 0), false)
  {}

  lemma EndOfPath(cfg: seq<string>, p: string, lines: seq<string>, lost: bool)
    requires LinesOk(cfg) && Reached(cfg, Segments(p), lines, Remaining(p, |p|), lost)
    ensures Walk(cfg, Segments(p)) == if lost then None else Some(lines)
    ensures lost ==> lines == []
  {}

  /** The text after the first colon of the first line, without leading spaces. */
  method ConfigValue(cfg: seq<string>) returns (value: Option<string>)
    ensures value == ValueOf(cfg)
    ensures value.None? <==> cfg == [] || ':' !in cfg[0]
    ensures value.Some? ==> exists before, gap: nat :: IsValue(cfg[0], before, gap, value.value)
  {
    ValueMissing(cfg);
    if ValueOf(cfg).Some? { ValueIff(cfg, ValueOf(cfg).value); }
    if |cfg| == 0 {
      return None;
    }
    var colon := Find(cfg[0], 0, ':');
    if colon == |cfg[0]| {
      return None;
    }
    return Some(SkipSpaces(cfg[0][colon + 1..]));
  }

  /** Looking a joined path up in the printed lines of a forest finds what descent in the forest
      finds: the target's header and its children at the outermost level, with its value. */
  method LookUp(forest: seq<Node>, path: seq<string>, dest: Config) returns (found: bool, value: Option<string>)
    requires ForestOk(forest) && PathOk(path) && NoRepeat(path) && NUL !in Join(path)
    requires Descend(forest, path).Some? && dest.lines == []
    modifies dest
    ensures found
    ensures var n := Descend(forest, path).value;
      dest.lines == [Header(n)] + Print(n.children, 0) && value == Some(SkipSpaces(n.tail))
  {
    SegmentsOfJoin(path);
    LookupOnPrint(forest, path);
    found := ConfigChildren(dest, Print(forest, 0), Join(path));
    value := ConfigValue(dest.lines);
  }
}
