/** What a configuration of `miniconf.c` means: a forest of keyed nodes, written as indented
    lines. */
module ConfigSpec {
  import opened CStrings
  import opened Options

  /** A node is written as its key, a colon and a tail, with its children below it. */
  datatype Node = Node(key: string, tail: string, children: seq<Node>)

  const STEP: nat := 4

  function Spaces(n: nat): (s: string)
    ensures |s| == n && forall i :: 0 <= i < n ==> s[i] == ' '
  {
    seq(n, _ => ' ')
  }

  function Header(n: Node): string { n.key + ":" + n.tail }

  function Print(forest: seq<Node>, indent: nat): seq<string>
    decreases forest
  {
    if forest == [] then []
    else
      [Spaces(indent) + Header(forest[0])]
      + Print(forest[0].children, indent + STEP)
      + Print(forest[1..], indent)
  }

  /** Keys are not empty, hold no colon and no slash, and do not start with a space. */
  predicate KeyOk(key: string) {
    key != "" && key[0] != ' ' && ':' !in key && '/' !in key
  }

  predicate ForestOk(forest: seq<Node>)
    decreases forest
  {
    forest == []
    || (KeyOk(forest[0].key) && ForestOk(forest[0].children) && ForestOk(forest[1..]))
  }

  // ---- Lookup in the lines ----------------------------------------------------------------

  predicate Indented(line: string) { line != "" && line[0] == ' ' }

  /** The line is at the outermost level and what precedes its first colon is `key`. */
  predicate Names(line: string, key: string) {
    && !Indented(line)
    && var colon := Find(line, 0, ':');
       colon < |line| && line[..colon] == key
  }

  /** Cutting four columns off an indented line never runs past its end, however often it is done.
      What the four columns hold does not matter. */
  predicate IndentOk(line: string)
    decreases |line|
  {
    Indented(line) ==> |line| >= STEP && IndentOk(line[STEP..])
  }

  predicate LinesOk(lines: seq<string>) {
    forall i :: 0 <= i < |lines| ==> IndentOk(lines[i])
  }

  /** The indented lines at the start, with four columns cut off. */
  function Block(lines: seq<string>): seq<string>
    requires LinesOk(lines)
  {
    if lines == [] || !Indented(lines[0]) then []
    else [lines[0][STEP..]] + Block(lines[1..])
  }

  /** The first line with the key, followed by the lines below it. */
  function ChildLines(lines: seq<string>, key: string): Option<seq<string>>
    requires LinesOk(lines)
  {
    if lines == [] then None
    else if Names(lines[0], key) then Some([lines[0]] + Block(lines[1..]))
    else ChildLines(lines[1..], key)
  }

  lemma {:induction false} BlockOk(lines: seq<string>)
    requires LinesOk(lines)
    ensures LinesOk(Block(lines))
  {
    if lines != [] && Indented(lines[0]) {
      BlockOk(lines[1..]);
    }
  }

  lemma {:induction false} ChildLinesOk(lines: seq<string>, key: string)
    requires LinesOk(lines)
    ensures ChildLines(lines, key).Some? ==> LinesOk(ChildLines(lines, key).value)
  {
    if lines == [] {
    } else {
      if Names(lines[0], key) {
        BlockOk(lines[1..]);
      } else {
        ChildLinesOk(lines[1..], key);
      }
    }
  }

  // ---- What a step finds, line by line ----------------------------------------------------

  /** The line starts with the key and the line's first colon, and not with a space. */
  predicate Headed(line: string, key: string) {
    && |key| < |line| && line[..|key|] == key && line[|key|] == ':'
    && ':' !in key && line[0] != ' '
  }

  /** A line without a colon is never found, whatever the key. */
  lemma NamesIff(line: string, key: string)
    ensures Names(line, key) <==> Headed(line, key)
    ensures ':' !in line ==> !Names(line, key)
  {
    if Headed(line, key) {
      assert forall i :: 0 <= i < |key| ==> line[i] == key[i];
      FindIs(line, 0, ':', |key|);
    }
  }

  /** `found` is line `i`, the first with the key, and the `n` lines below it without their first
      four columns: all lines up to the next one that does not start with a space. */
  ghost predicate IsChild(lines: seq<string>, key: string, i: nat, n: nat, found: seq<string>) {
    && i + n < |lines| && Headed(lines[i], key)
    && (forall j :: 0 <= j < i ==> !Headed(lines[j], key))
    && |found| == n + 1 && found[0] == lines[i]
    && (forall j :: 1 <= j <= n ==> IsBelow(lines[i + j], found[j]))
    && (i + n + 1 < |lines| ==> !Indented(lines[i + n + 1]))
  }

  predicate IsBelow(line: string, cut: string) { |line| >= 4 && line[0] == ' ' && line[4..] == cut }

  lemma {:induction false} BlockLines(lines: seq<string>)
    requires LinesOk(lines)
    ensures var n := |Block(lines)|;
      && n <= |lines| && (n < |lines| ==> !Indented(lines[n]))
      && forall j :: 0 <= j < n ==> IsBelow(lines[j], Block(lines)[j])
  {
    if lines == [] || !Indented(lines[0]) {
    } else {
      BlockLines(lines[1..]);
      var n := |Block(lines)|;
      forall j | 0 <= j < n ensures IsBelow(lines[j], Block(lines)[j]) {
        assert j > 0 ==> lines[j] == lines[1..][j - 1] && Block(lines)[j] == Block(lines[1..])[j - 1];
      }
      assert n < |lines| ==> lines[n] == lines[1..][n - 1];
    }
  }

  lemma {:induction false} ChildIs(lines: seq<string>, key: string) returns (i: nat, n: nat)
    requires LinesOk(lines)
    ensures ChildLines(lines, key).Some? ==> IsChild(lines, key, i, n, ChildLines(lines, key).value)
    ensures ChildLines(lines, key).None? ==> forall j :: 0 <= j < |lines| ==> !Headed(lines[j], key)
  {
    i, n := 0, 0;
    if lines == [] {
    } else {
      NamesIff(lines[0], key);
      if Names(lines[0], key) {
        BlockLines(lines[1..]);
        n := |Block(lines[1..])|;
        forall j | 1 <= j <= n ensures IsBelow(lines[j], ([lines[0]] + Block(lines[1..]))[j]) {
          assert lines[j] == lines[1..][j - 1];
        }
      } else {
        i, n := ChildIs(lines[1..], key);
        i := i + 1;
        LaterChild(lines, key, i, n);
      }
    }
  }

  lemma LaterChild(lines: seq<string>, key: string, i: nat, n: nat)
    requires LinesOk(lines) && lines != [] && !Headed(lines[0], key) && !Names(lines[0], key) && i > 0
    requires ChildLines(lines, key).Some? ==> IsChild(lines[1..], key, i - 1, n, ChildLines(lines, key).value)
    requires ChildLines(lines, key).None? ==> forall j :: 0 <= j < |lines| - 1 ==> !Headed(lines[1..][j], key)
    ensures ChildLines(lines, key).Some? ==> IsChild(lines, key, i, n, ChildLines(lines, key).value)
    ensures ChildLines(lines, key).None? ==> forall j :: 0 <= j < |lines| ==> !Headed(lines[j], key)
  {
    hide ChildLines, Headed, IsBelow, Indented;
    assert forall j :: 0 < j < |lines| ==> lines[j] == lines[1..][j - 1];
    if ChildLines(lines, key).Some? {
      var found := ChildLines(lines, key).value;
      forall j | 1 <= j <= n ensures IsBelow(lines[i + j], found[j]) {
        assert lines[i + j] == lines[1..][i - 1 + j];
      }
    }
  }

  lemma NotLonger(lines: seq<string>, key: string, i: nat, n: nat, a: seq<string>, n': nat, b: seq<string>)
    requires IsChild(lines, key, i, n, a) && IsChild(lines, key, i, n', b)
    ensures n' <= n
  {
    hide Headed, IsBelow, Indented;
    if n < n' { BelowIndented(lines[i + (n + 1)], b[n + 1]); }
  }

  lemma BelowIndented(line: string, cut: string)
    requires IsBelow(line, cut)
    ensures Indented(line)
  {}

  lemma OneChild(lines: seq<string>, key: string, i: nat, n: nat, a: seq<string>, i': nat, n': nat, b: seq<string>)
    requires IsChild(lines, key, i, n, a) && IsChild(lines, key, i', n', b)
    ensures a == b
  {
    hide Headed;
    assert i == i';
    NotLonger(lines, key, i, n, a, n', b);
    NotLonger(lines, key, i, n', b, n, a);
    forall j | 0 <= j <= n ensures a[j] == b[j] {
      if j > 0 { assert IsBelow(lines[i + j], a[j]) && IsBelow(lines[i + j], b[j]); }
    }
  }

  /** A step finds the key's first line and what is indented below it, and nothing only when no
      line has the key. */
  lemma ChildIff(lines: seq<string>, key: string, found: seq<string>)
    requires LinesOk(lines)
    ensures ChildLines(lines, key) == Some(found) <==> exists i, n :: IsChild(lines, key, i, n, found)
    ensures ChildLines(lines, key).None? <==> forall j :: 0 <= j < |lines| ==> !Headed(lines[j], key)
  {
    hide IsChild, ChildLines, Headed;
    var i, n := ChildIs(lines, key);
    if i': nat, n': nat :| IsChild(lines, key, i', n', found) {
      HeadedAt(lines, key, i', n', found);
      assert ChildLines(lines, key).Some?;
      OneChild(lines, key, i, n, ChildLines(lines, key).value, i', n', found);
    }
    if ChildLines(lines, key).Some? { HeadedAt(lines, key, i, n, ChildLines(lines, key).value); }
  }

  lemma HeadedAt(lines: seq<string>, key: string, i: nat, n: nat, found: seq<string>)
    requires IsChild(lines, key, i, n, found)
    ensures i < |lines| && Headed(lines[i], key)
  {}

  /** Following a path one key at a time. */
  function Walk(lines: seq<string>, path: seq<string>): Option<seq<string>>
    requires LinesOk(lines)
    decreases |path|
  {
    if path == [] then Some(lines)
    else
      var next := ChildLines(lines, path[0]);
      if next.None? then None
      else
        ChildLinesOk(lines, path[0]);
        Walk(next.value, path[1..])
  }

  function SkipSpaces(s: string): string {
    if s != "" && s[0] == ' ' then SkipSpaces(s[1..]) else s
  }

  /** The text after the first colon of the first line, without leading spaces. */
  function ValueOf(lines: seq<string>): Option<string> {
    if lines == [] then None
    else
      var colon := Find(lines[0], 0, ':');
      if colon == |lines[0]| then None else Some(SkipSpaces(lines[0][colon + 1..]))
  }

  /** The line is `before` without a colon, a colon, `gap` spaces, and the value, which does not
      start with a space. */
  predicate IsValue(line: string, before: string, gap: nat, value: string) {
    && line == before + ":" + Spaces(gap) + value
    && ':' !in before && !Indented(value)
  }

  lemma {:induction false} SkipSpacesIs(gap: nat, value: string)
    requires !Indented(value)
    ensures SkipSpaces(Spaces(gap) + value) == value
  {
    if gap == 0 {
      assert Spaces(gap) + value == value;
    } else {
      assert (Spaces(gap) + value)[1..] == Spaces(gap - 1) + value;
      SkipSpacesIs(gap - 1, value);
    }
  }

  lemma {:induction false} SpacesSkipped(s: string) returns (gap: nat)
    ensures s == Spaces(gap) + SkipSpaces(s) && !Indented(SkipSpaces(s))
  {
    if !Indented(s) {
      gap := 0;
      assert Spaces(0) + s == s;
    } else {
      gap := SpacesSkipped(s[1..]);
      gap := gap + 1;
      assert s == [' '] + s[1..];
      assert Spaces(gap) == [' '] + Spaces(gap - 1);
    }
  }

  /** The value is exactly what stands behind the first colon of the first line and its spaces. */
  lemma ValueIff(lines: seq<string>, value: string)
    ensures ValueOf(lines) == Some(value) <==>
      lines != [] && exists before, gap: nat :: IsValue(lines[0], before, gap, value)
  {
    if lines != [] {
      var line := lines[0];
      if before: string, gap: nat :| IsValue(line, before, gap, value) {
        FindIs(line, 0, ':', |before|);
        assert line[|before| + 1..] == Spaces(gap) + value;
        SkipSpacesIs(gap, value);
      }
      if ValueOf(lines) == Some(value) {
        var colon := Find(line, 0, ':');
        var gap := SpacesSkipped(line[colon + 1..]);
        assert line == line[..colon] + ":" + line[colon + 1..];
        assert IsValue(line, line[..colon], gap, value);
      }
    }
  }

  lemma ValueMissing(lines: seq<string>)
    ensures ValueOf(lines).None? <==> lines == [] || ':' !in lines[0]
  {}

  // ---- Lookup in the tree -----------------------------------------------------------------

  /** The first node of a forest with the key. */
  function FindNode(forest: seq<Node>, key: string): Option<Node> {
    if forest == [] then None
    else if forest[0].key == key then Some(forest[0])
    else FindNode(forest[1..], key)
  }

  /** Descent along a path of one or more keys. */
  function Descend(forest: seq<Node>, path: seq<string>): Option<Node>
    requires path != []
    decreases |path|
  {
    var n := FindNode(forest, path[0]);
    if n.None? || |path| == 1 then n else Descend(n.value.children, path[1..])
  }

  function Leaf(n: Node): Node { Node(n.key, n.tail, []) }

  /** What one text step leaves of a node: its own header at the level of its children. */
  function Opened(n: Node): seq<Node> { [Leaf(n)] + n.children }

  /** The forest that a text walk really descends through. */
  function WalkForest(forest: seq<Node>, path: seq<string>): Option<seq<Node>>
    decreases |path|
  {
    if path == [] then Some(forest)
    else
      var n := FindNode(forest, path[0]);
      if n.None? then None else WalkForest(Opened(n.value), path[1..])
  }

  // ---- The printed forest -----------------------------------------------------------------

  function Shifted(lines: seq<string>): (r: seq<string>)
    ensures |r| == |lines| && forall i :: 0 <= i < |lines| ==> r[i] == Spaces(STEP) + lines[i]
  {
    seq(|lines|, i requires 0 <= i < |lines| => Spaces(STEP) + lines[i])
  }

  lemma ShiftedConcat(a: seq<string>, b: seq<string>)
    ensures Shifted(a + b) == Shifted(a) + Shifted(b)
  {}

  lemma SpacesSum(m: nat, n: nat, s: string)
    ensures Spaces(m + n) + s == Spaces(m) + (Spaces(n) + s)
  {}

  /** Printing one step further right puts four spaces before every line. */
  lemma {:induction false} PrintShifted(forest: seq<Node>, indent: nat)
    ensures Print(forest, STEP + indent) == Shifted(Print(forest, indent))
    decreases forest
  {
    if forest == [] {
    } else {
      var first := [Spaces(indent) + Header(forest[0])];
      var below, after := Print(forest[0].children, indent + STEP), Print(forest[1..], indent);
      PrintShifted(forest[0].children, indent + STEP);
      PrintShifted(forest[1..], indent);
      SpacesSum(STEP, indent, Header(forest[0]));
      assert Shifted(first) == [Spaces(STEP + indent) + Header(forest[0])];
      ShiftedConcat(first + below, after);
      ShiftedConcat(first, below);
      assert STEP + indent + STEP == STEP + (indent + STEP);
    }
  }

  lemma HeaderNames(n: Node, key: string)
    requires KeyOk(n.key)
    ensures !Indented(Header(n)) && (Names(Header(n), key) <==> n.key == key)
  {
    FindIs(Header(n), 0, ':', |n.key|);
    assert Header(n)[..|n.key|] == n.key;
  }

  lemma ShiftedLine(line: string)
    ensures var l := Spaces(STEP) + line;
      Indented(l) && l[STEP..] == line && (IndentOk(l) <==> IndentOk(line))
  {
    assert (Spaces(STEP) + line)[..STEP] == Spaces(STEP);
  }

  lemma PrintUnfold(forest: seq<Node>, indent: nat)
    requires forest != []
    ensures Print(forest, indent)
         == [Spaces(indent) + Header(forest[0])] + Print(forest[0].children, indent + STEP) + Print(forest[1..], indent)
  {}

  /** The lines of a node and of what follows it. */
  lemma PrintFirst(forest: seq<Node>)
    requires forest != []
    ensures Print(forest, 0)
         == [Header(forest[0])] + (Shifted(Print(forest[0].children, 0)) + Print(forest[1..], 0))
  {
    hide Print, Shifted, Header;
    PrintUnfold(forest, 0);
    PrintShifted(forest[0].children, 0);
    assert Spaces(0) + Header(forest[0]) == Header(forest[0]);
    HeadFirst(Header(forest[0]), Shifted(Print(forest[0].children, 0)), Print(forest[1..], 0));
  }

  lemma HeadFirst(h: string, a: seq<string>, b: seq<string>)
    ensures [h] + a + b == [h] + (a + b)
  {}

  lemma {:induction false} PrintOk(forest: seq<Node>)
    requires ForestOk(forest)
    ensures LinesOk(Print(forest, 0))
    ensures forest != [] ==> !Indented(Print(forest, 0)[0])
    decreases forest
  {
    if forest == [] {
    } else {
      var below, after := Print(forest[0].children, 0), Print(forest[1..], 0);
      PrintOk(forest[0].children);
      PrintOk(forest[1..]);
      HeaderNames(forest[0], "");
      forall i | 0 <= i < |below| ensures IndentOk(Shifted(below)[i]) {
        ShiftedLine(below[i]);
      }
      PrintFirst(forest);
    }
  }

  /** Below a header, the shifted lines are the block and are given back unshifted. */
  lemma {:induction false} BlockShifted(below: seq<string>, after: seq<string>)
    requires LinesOk(Shifted(below) + after)
    requires after != [] ==> !Indented(after[0])
    ensures Block(Shifted(below) + after) == below
  {
    if below == [] {
      assert Shifted(below) + after == after;
    } else {
      var lines := Shifted(below) + after;
      ShiftedLine(below[0]);
      assert lines[1..] == Shifted(below[1..]) + after;
      BlockShifted(below[1..], after);
    }
  }

  /** The search for a key steps over indented lines. */
  lemma {:induction false} SkipShifted(below: seq<string>, after: seq<string>, key: string)
    requires LinesOk(Shifted(below) + after) && LinesOk(after)
    ensures ChildLines(Shifted(below) + after, key) == ChildLines(after, key)
  {
    if below == [] {
      assert Shifted(below) + after == after;
    } else {
      var lines := Shifted(below) + after;
      ShiftedLine(below[0]);
      assert lines[1..] == Shifted(below[1..]) + after;
      SkipShifted(below[1..], after, key);
    }
  }

  lemma PrintOpened(n: Node)
    ensures Print(Opened(n), 0) == [Header(n)] + Print(n.children, 0)
  {
    PrintFirst(Opened(n));
    assert Opened(n)[1..] == n.children;
    assert Shifted([]) + Print(n.children, 0) == Print(n.children, 0);
    assert Header(Leaf(n)) == Header(n);
  }

  /** One text step on a printed forest opens the first node with the key. */
  lemma {:induction false} StepOnPrint(forest: seq<Node>, key: string)
    requires ForestOk(forest) && LinesOk(Print(forest, 0))
    ensures ChildLines(Print(forest, 0), key)
         == match FindNode(forest, key)
            case None => None
            case Some(n) => Some(Print(Opened(n), 0))
  {
    if forest == [] {
    } else {
      var n, rest := forest[0], forest[1..];
      var below, after := Print(n.children, 0), Print(rest, 0);
      PrintFirst(forest);
      PrintOk(rest);
      HeaderNames(n, key);
      assert Print(forest, 0)[1..] == Shifted(below) + after;
      if n.key == key {
        BlockShifted(below, after);
        PrintOpened(n);
      } else {
        SkipShifted(below, after, key);
        StepOnPrint(rest, key);
      }
    }
  }

  lemma {:induction false} FoundOk(forest: seq<Node>, key: string)
    requires ForestOk(forest)
    ensures var n := FindNode(forest, key);
      n.Some? ==> ForestOk(Opened(n.value)) && n.value.key == key
  {
    if forest != [] && forest[0].key != key {
      FoundOk(forest[1..], key);
    } else if forest != [] {
      assert Opened(forest[0])[1..] == forest[0].children;
    }
  }

  /** Walking down the lines of a printed forest is walking down the forest, keeping the header
      of every node passed. */
  lemma {:induction false} WalkOnPrint(forest: seq<Node>, path: seq<string>)
    requires ForestOk(forest) && LinesOk(Print(forest, 0))
    ensures Walk(Print(forest, 0), path)
         == match WalkForest(forest, path)
            case None => None
            case Some(f) => Some(Print(f, 0))
    decreases |path|
  {
    if path == [] {
    } else {
      StepOnPrint(forest, path[0]);
      FoundOk(forest, path[0]);
      var n := FindNode(forest, path[0]);
      if n.Some? {
        PrintOk(Opened(n.value));
        WalkOnPrint(Opened(n.value), path[1..]);
      }
    }
  }

  // ---- Text lookup against descent in the tree --------------------------------------------

  /** No key of the path is followed by the same key. */
  predicate NoRepeat(path: seq<string>) {
    forall i :: 0 <= i < |path| - 1 ==> path[i] != path[i + 1]
  }

  /** What the text lookup should return for a path: the target opened, or nothing. */
  function Target(forest: seq<Node>, path: seq<string>): Option<seq<Node>>
    requires path != []
  {
    match Descend(forest, path)
    case None => None
    case Some(n) => Some(Opened(n))
  }

  lemma {:induction false} NoRepeatAgrees(forest: seq<Node>, path: seq<string>)
    requires path != [] && NoRepeat(path)
    ensures WalkForest(forest, path) == Target(forest, path)
    decreases |path|
  {
    var n := FindNode(forest, path[0]);
    if n.Some? && |path| > 1 {
      FoundKey(forest, path[0]);
      OpenedSkipsHeader(n.value, path[1]);
      assert path[1..][0] == path[1];
      assert Descend(Opened(n.value), path[1..]) == Descend(n.value.children, path[1..]);
      NoRepeatAgrees(Opened(n.value), path[1..]);
    }
  }

  lemma {:induction false} FoundKey(forest: seq<Node>, key: string)
    ensures FindNode(forest, key).Some? ==> FindNode(forest, key).value.key == key
  {
    if forest == [] {
    } else {
      FoundKey(forest[1..], key);
    }
  }

  lemma OpenedSkipsHeader(n: Node, key: string)
    requires n.key != key
    ensures FindNode(Opened(n), key) == FindNode(n.children, key)
  {
    assert Opened(n)[1..] == n.children;
  }

  // ---- Paths that repeat a key ------------------------------------------------------------

  /** A forest of one chain along the path, whose tails tell how deep a node is. */
  function Chain(path: seq<string>): Node
    requires path != []
    decreases |path|
  {
    Node(path[0], Spaces(|path|), if |path| == 1 then [] else [Chain(path[1..])])
  }

  /** Once only a leaf is left, a walk stays at it or fails. */
  lemma {:induction false} WalkFromLeaf(n: Node, path: seq<string>)
    requires n.children == []
    ensures var f := WalkForest([n], path);
      f.None? || f.value == [n]
    decreases |path|
  {
    assert Leaf(n) == n && [n][1..] == [];
    if path == [] {
    } else {
      assert FindNode([n], path[0]) == if n.key == path[0] then Some(n) else None;
      assert Opened(n) == [n];
      WalkFromLeaf(n, path[1..]);
    }
  }

  lemma {:induction false} DescendChain(before: seq<Node>, path: seq<string>)
    requires path != [] && (before == [] || (|before| == 1 && before[0].key != path[0]))
    ensures Descend(before + [Chain(path)], path) == Some(Node(path[|path| - 1], Spaces(1), []))
    decreases |path|
  {
    var forest := before + [Chain(path)];
    assert before != [] ==> forest[1..] == [Chain(path)];
    assert FindNode(forest, path[0]) == Some(Chain(path));
    if |path| <= 1 {
    } else {
      DescendChain([], path[1..]);
      assert [] + [Chain(path[1..])] == Chain(path).children;
    }
  }

  /** On the chain of a path that repeats a key, the walk is caught at the repeated node or
      fails; it never reaches the last one. */
  lemma {:induction false} RepeatMisses(before: seq<Node>, path: seq<string>)
    requires path != [] && (before == [] || (|before| == 1 && before[0].key != path[0]))
    requires !NoRepeat(path)
    ensures var f := WalkForest(before + [Chain(path)], path);
      f.None? || (f.value != [] && |f.value[0].tail| > 1)
    decreases |path|
  {
    var forest, n := before + [Chain(path)], Chain(path);
    assert before != [] ==> forest[1..] == [n];
    assert FindNode(forest, path[0]) == Some(n);
    assert Opened(n) == [Leaf(n)] + [Chain(path[1..])];
    if path[0] == path[1] {
      var rest := path[2..];
      assert path[1..][1..] == rest;
      assert FindNode(Opened(n), path[1]) == Some(Leaf(n));
      assert Opened(Leaf(n)) == [Leaf(n)];
      WalkFromLeaf(Leaf(n), rest);
    } else {
      assert !NoRepeat(path[1..]) by {
        var i :| 0 <= i < |path| - 1 && path[i] == path[i + 1];
        assert path[1..][i - 1] == path[1..][i];
      }
      RepeatMisses([Leaf(n)], path[1..]);
    }
  }

  predicate PathOk(path: seq<string>) {
    path != [] && forall i :: 0 <= i < |path| ==> KeyOk(path[i])
  }

  lemma {:induction false} ChainOk(path: seq<string>)
    requires PathOk(path)
    ensures ForestOk([Chain(path)])
    decreases |path|
  {
    assert [Chain(path)][1..] == [];
    if |path| <= 1 {
    } else {
      ChainOk(path[1..]);
    }
  }

  /** The text lookup of a path agrees with descent in the tree, for every forest in which the
      path exists, if and only if the path does not repeat a key. */
  lemma AgreesIff(path: seq<string>)
    requires PathOk(path)
    ensures NoRepeat(path) <==>
      forall forest :: ForestOk(forest) && Descend(forest, path).Some? ==>
        WalkForest(forest, path) == Target(forest, path)
  {
    if NoRepeat(path) {
      forall forest ensures WalkForest(forest, path) == Target(forest, path) {
        NoRepeatAgrees(forest, path);
      }
    } else {
      var forest := [Chain(path)];
      assert [] + forest == forest;
      ChainOk(path);
      DescendChain([], path);
      RepeatMisses([], path);
      assert Target(forest, path).value[0].tail == Spaces(1);
    }
  }

  /** For a printed forest and an existing path that repeats no key, the text lookup returns the
      target's header line and its children at the outermost level, and its value is the
      target's. */
  lemma LookupOnPrint(forest: seq<Node>, path: seq<string>)
    requires ForestOk(forest) && path != [] && NoRepeat(path)
    ensures LinesOk(Print(forest, 0))
    ensures match Descend(forest, path)
      case None => Walk(Print(forest, 0), path).None?
      case Some(n) =>
        && Walk(Print(forest, 0), path) == Some([Header(n)] + Print(n.children, 0))
        && ValueOf([Header(n)] + Print(n.children, 0)) == Some(SkipSpaces(n.tail))
  {
    PrintOk(forest);
    WalkOnPrint(forest, path);
    NoRepeatAgrees(forest, path);
    DescendOk(forest, path);
    match Descend(forest, path)
    case None =>
    case Some(n) =>
      PrintOpened(n);
      FindIs(Header(n), 0, ':', |n.key|);
      assert Header(n)[|n.key| + 1..] == n.tail;
  }

  lemma {:induction false} DescendOk(forest: seq<Node>, path: seq<string>)
    requires ForestOk(forest) && path != []
    ensures Descend(forest, path).Some? ==> KeyOk(Descend(forest, path).value.key)
    decreases |path|
  {
    FoundOk(forest, path[0]);
    var n := FindNode(forest, path[0]);
    if n.Some? && |path| > 1 {
      assert Opened(n.value)[1..] == n.value.children;
      DescendOk(n.value.children, path[1..]);
    }
  }

  // ---- Paths ------------------------------------------------------------------------------

  function Segment(p: string, start: nat): string
    requires start <= |p|
  {
    p[start..Find(p, start, '/')]
  }

  /** The segments that begin after the slashes from position `i` on. */
  function SegmentsAfter(p: string, i: nat): seq<string>
    requires i <= |p|
    decreases |p| - i
  {
    if i == |p| then []
    else if p[i] == '/' then [Segment(p, i + 1)] + SegmentsAfter(p, i + 1)
    else SegmentsAfter(p, i + 1)
  }

  /** The segments of a path. A slash at the very start is not taken for a separator. */
  function Segments(p: string): seq<string> {
    if p == "" then [] else [Segment(p, 0)] + SegmentsAfter(p, 1)
  }

  function Join(path: seq<string>): string {
    if path == [] then ""
    else if |path| == 1 then path[0]
    else path[0] + "/" + Join(path[1..])
  }

  lemma SegmentShift(a: string, p: string, i: nat)
    requires i <= |p|
    ensures Segment(a + p, |a| + i) == Segment(p, i)
  {
    var k := Find(p, i, '/');
    FindIs(a + p, |a| + i, '/', |a| + k);
    assert (a + p)[|a| + i..|a| + k] == p[i..k];
  }

  lemma {:induction false} SegmentsShift(a: string, p: string, i: nat)
    requires i <= |p|
    ensures SegmentsAfter(a + p, |a| + i) == SegmentsAfter(p, i)
    ensures Segment(a + p, |a| + i) == Segment(p, i)
    decreases |p| - i
  {
    hide Segment;
    SegmentShift(a, p, i);
    if i == |p| {
    } else {
      SegmentsShift(a, p, i + 1);
      assert (a + p)[|a| + i] == p[i];
      assert |a| + (i + 1) == |a| + i + 1;
    }
  }

  lemma {:induction false} NoSlashAhead(a: string, p: string, i: nat)
    requires i <= |a| && '/' !in a
    ensures SegmentsAfter(a + p, i) == SegmentsAfter(a + p, |a|)
    decreases |a| - i
  {
    if i == |a| {
    } else {
      assert (a + p)[i] == a[i];
      NoSlashAhead(a, p, i + 1);
    }
  }

  /** Joining keys with slashes and splitting the result gives the keys back. */
  lemma {:induction false} SegmentsOfJoin(path: seq<string>)
    requires PathOk(path)
    ensures Join(path) != "" && Segments(Join(path)) == path
    decreases |path|
  {
    hide Segment, SegmentsAfter, Find;
    var a := path[0];
    assert KeyOk(a);
    if |path| == 1 {
      FindIs(a, 0, '/', |a|);
      SegmentTo(a, |a|);
      NoSlashAhead(a, "", 1);
      AtEnd(a);
      assert a + "" == a && a[0..|a|] == a;
    } else {
      var rest := Join(path[1..]);
      SegmentsOfJoin(path[1..]);
      var p := a + ("/" + rest);
      assert p == a + "/" + rest && p == (a + "/") + rest;
      FindIs(p, 0, '/', |a|);
      assert p[0..|a|] == a;
      SegmentTo(p, |a|);
      AtSlash(p, |a|);
      NoSlashAhead(a, "/" + rest, 1);
      SegmentsShift(a + "/", rest, 0);
      assert path[1..][0] == path[1];
      FirstNoSlash(path[1..]);
    }
  }

  /** From any position on, the segment there and those after the later slashes are the text. */
  lemma {:induction false} JoinFrom(p: string, i: nat)
    requires i <= |p|
    ensures Join([Segment(p, i)] + SegmentsAfter(p, i)) == p[i..]
    ensures '/' !in Segment(p, i) && forall s :: s in SegmentsAfter(p, i) ==> '/' !in s
    decreases |p| - i
  {
    var after := SegmentsAfter(p, i);
    if i == |p| {
      assert [Segment(p, i)] + after == [Segment(p, i)];
    } else {
      JoinFrom(p, i + 1);
      assert p[i..] == [p[i]] + p[i + 1..];
      if p[i] == '/' {
        assert Segment(p, i) == "" && ([""] + after)[1..] == after;
      } else {
        SegmentGrows(p, i);
        JoinGrows(p[i], Segment(p, i + 1), after);
      }
    }
  }

  lemma SegmentGrows(p: string, i: nat)
    requires i < |p| && p[i] != '/'
    ensures Segment(p, i) == [p[i]] + Segment(p, i + 1)
  {
    assert Find(p, i, '/') == Find(p, i + 1, '/');
  }

  lemma JoinGrows(c: char, x: string, after: seq<string>)
    ensures Join([[c] + x] + after) == [c] + Join([x] + after)
  {
    assert ([[c] + x] + after)[1..] == after && ([x] + after)[1..] == after;
  }

  lemma LeadingSlash(p: string)
    requires p != "" && p[0] == '/'
    ensures SegmentsAfter(p, 0) == [Segment(p, 1)] + SegmentsAfter(p, 1)
    ensures |Join([""] + SegmentsAfter(p, 1))| < |p|
  {
    var after := SegmentsAfter(p, 1);
    JoinFrom(p, 1);
    assert ([""] + after)[1..] == after && ([Segment(p, 1)] + after)[1..] == after;
  }

  /** Splitting a path loses nothing, exactly unless it starts with a slash: then what stands
      before the next slash is skipped. */
  lemma JoinOfSegments(p: string)
    ensures forall s :: s in Segments(p) ==> '/' !in s
    ensures Join(Segments(p)) == p <==> p == "" || p[0] != '/'
    ensures p != "" && p[0] != '/' ==> Segments("/" + p) == [""] + Segments(p)[1..]
  {
    if p != "" {
      JoinFrom(p, 0);
      if p[0] == '/' { LeadingSlash(p); }
      SegmentsShift("/", p, 0);
      assert Segment("/" + p, 0) == "";
    }
  }

  lemma SegmentTo(p: string, k: nat)
    requires Find(p, 0, '/') == k
    ensures Segment(p, 0) == p[0..k]
  {}

  lemma AtEnd(p: string)
    ensures SegmentsAfter(p, |p|) == []
  {}

  lemma AtSlash(p: string, i: nat)
    requires i < |p| && p[i] == '/'
    ensures SegmentsAfter(p, i) == [Segment(p, i + 1)] + SegmentsAfter(p, i + 1)
  {}

  lemma FirstNoSlash(path: seq<string>)
    requires PathOk(path)
    ensures var p := Join(path);
      p != "" && SegmentsAfter(p, 0) == SegmentsAfter(p, 1)
  {
    assert KeyOk(path[0]);
    assert Join(path)[0] == path[0][0] && path[0][0] in path[0];
  }
}
