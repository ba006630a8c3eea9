/** What brace expansion of `niglob/niglob.c` yields, and the patterns it is meant for. */
module CurlySpec {
  import opened CStrings

  // ---- The expansion ----------------------------------------------------------------------

  /** How deep one is after reading `c`, from inside at least one group. */
  function Nest(n: nat, c: char): nat
    requires n >= 1
  {
    if c == '{' then n + 1 else if c == '}' then n - 1 else n
  }

  /** Where the last of `n` open groups is closed; the length when it is not. */
  function Close(s: string, n: nat): (k: nat)
    requires n >= 1
    ensures k <= |s| && (k < |s| ==> s[k] == '}')
  {
    if s == [] || Nest(n, s[0]) == 0 then 0 else 1 + Close(s[1..], Nest(n, s[0]))
  }

  function Row(start: string, rest: seq<string>): (r: seq<string>)
    ensures |r| == |rest| && forall j :: 0 <= j < |r| ==> r[j] == start + rest[j]
  {
    seq(|rest|, j requires 0 <= j < |rest| => start + rest[j])
  }

  /** `before`, one of the options, one of the rests: the options vary slowest. */
  function Product(before: string, options: seq<string>, rest: seq<string>): seq<string> {
    if options == [] then [] else Row(before + options[0], rest) + Product(before, options[1..], rest)
  }

  /** The text before the first opening brace, then each option of its group, which ends at the
      matching brace, then what follows. Without a matching brace there is no result. */
  function Expand(p: string): seq<string>
    decreases |p|, 0
  {
    var open := Find(p, 0, '{');
    if open == |p| then [p]
    else
      var inside := p[open + 1..];
      var close := Close(inside, 1);
      if close == |inside| then []
      else Product(p[..open], ExpandOptions(inside[..close]), Expand(inside[close + 1..]))
  }

  /** The inside of a group is divided at every comma, however deep. */
  function ExpandOptions(body: string): seq<string>
    decreases |body|, 1
  {
    var comma := Find(body, 0, ',');
    if comma == |body| then Expand(body)
    else Expand(body[..comma]) + ExpandOptions(body[comma + 1..])
  }

  // ---- Products ---------------------------------------------------------------------------

  lemma {:induction false} ProductAppend(before: string, first: seq<string>, last: seq<string>, rest: seq<string>)
    ensures Product(before, first + last, rest) == Product(before, first, rest) + Product(before, last, rest)
  {
    if first == [] {
      assert first + last == last;
    } else {
      assert (first + last)[1..] == first[1..] + last;
      ProductAppend(before, first[1..], last, rest);
    }
  }

  /** The result at any position: lexicographic order, the options counting in steps of rows. */
  lemma {:induction false} ProductAt(before: string, options: seq<string>, rest: seq<string>, i: nat, j: nat)
    requires i < |options| && j < |rest|
    ensures |Product(before, options, rest)| == |options| * |rest|
    ensures i * |rest| + j < |options| * |rest|
    ensures Product(before, options, rest)[i * |rest| + j] == before + options[i] + rest[j]
    decreases |options|
  {
    ProductLength(before, options, rest);
    ProductLength(before, options[1..], rest);
    IndexInside(i, |options|, j, |rest|);
    if i == 0 {
    } else {
      ProductAt(before, options[1..], rest, i - 1, j);
      assert (i - 1) * |rest| + j == i * |rest| + j - |rest|;
    }
  }

  lemma IndexInside(i: nat, m: nat, j: nat, n: nat)
    requires i < m && j < n
    ensures i * n + j < m * n
  {
    var k: nat := m - i - 1;
    calc {
      m * n;
      (i + 1 + k) * n;
      i * n + n + k * n;
    }
    assert k * n >= 0;
  }

  lemma {:induction false} ProductLength(before: string, options: seq<string>, rest: seq<string>)
    ensures |Product(before, options, rest)| == |options| * |rest|
  {
    if options == [] {
    } else {
      ProductLength(before, options[1..], rest);
      assert |options| * |rest| == |rest| + |options[1..]| * |rest|;
    }
  }

  lemma ProductEmpty(before: string, options: seq<string>, rest: seq<string>)
    ensures Product(before, options, rest) == [] <==> options == [] || rest == []
  {
    ProductLength(before, options, rest);
    if options != [] && rest != [] { ProductAt(before, options, rest, 0, 0); }
  }

  // ---- When nothing is left ---------------------------------------------------------------

  /** How many groups are open at the end, when stray closing braces are passed over. */
  function Depth(s: string, d: nat): nat
    decreases |s|
  {
    if s == [] then d
    else Depth(s[1..], if s[0] == '{' then d + 1 else if s[0] == '}' && d > 0 then d - 1 else d)
  }

  lemma {:induction false} DepthOfPlain(s: string, k: nat, d: nat)
    requires k <= |s| && '{' !in s[..k] && d == 0
    ensures Depth(s, d) == Depth(s[k..], d)
    decreases k
  {
    if k == 0 {
      assert s[0..] == s;
    } else {
      assert s[1..][..k - 1] == s[..k][1..];
      assert s[1..][k - 1..] == s[k..];
      DepthOfPlain(s[1..], k - 1, d);
    }
  }

  /** A group that is closed leaves no depth behind; one that is not, leaves some. */
  lemma {:induction false} CloseDepth(s: string, n: nat)
    requires n >= 1
    ensures Close(s, n) == |s| ==> Depth(s, n) >= 1
    ensures Close(s, n) < |s| ==> Depth(s, n) == Depth(s[Close(s, n) + 1..], 0)
    decreases |s|
  {
    if s != [] && Nest(n, s[0]) > 0 {
      CloseDepth(s[1..], Nest(n, s[0]));
      var k := Close(s[1..], Nest(n, s[0]));
      assert k < |s[1..]| ==> s[1..][k + 1..] == s[k + 2..];
    }
  }

  /** Every end part of a group's inside is balanced, up to stray closing braces. */
  lemma {:induction false} InsideDepth(s: string, n: nat, from: nat, d: nat)
    requires n >= 1 && Close(s, n) < |s| && from <= Close(s, n)
    requires d < n || from > 0
    requires from > 0 ==> d == 0
    ensures Depth(s[from..Close(s, n)], d) == 0
    decreases |s|
  {
    var k := Close(s, n);
    if k == 0 {
    } else if from > 0 {
      assert s[from..k] == s[1..][from - 1..k - 1];
      InsideDepth(s[1..], Nest(n, s[0]), from - 1, 0);
    } else {
      assert s[..k][1..] == s[1..][..k - 1];
      InsideDepth(s[1..], Nest(n, s[0]), 0, if s[0] == '{' then d + 1 else if s[0] == '}' && d > 0 then d - 1 else d);
    }
  }

  /** Nothing results exactly when an opening brace is left without a match. */
  lemma {:induction false} EmptyIff(p: string)
    ensures Expand(p) == [] <==> Depth(p, 0) > 0
    decreases |p|, 0
  {
    var open := Find(p, 0, '{');
    DepthOfPlain(p, open, 0);
    if open == |p| {
    } else {
      var inside := p[open + 1..];
      assert p[open..][1..] == inside;
      CloseDepth(inside, 1);
      var close := Close(inside, 1);
      if close < |inside| {
        EmptyIff(inside[close + 1..]);
        OptionsNotEmpty(inside, inside[..close], 0);
        ProductEmpty(p[..open], ExpandOptions(inside[..close]), Expand(inside[close + 1..]));
      }
    }
  }

  lemma {:induction false} OptionsNotEmpty(inside: string, body: string, from: nat)
    requires Close(inside, 1) < |inside| && from <= Close(inside, 1) && body == inside[from..Close(inside, 1)]
    ensures ExpandOptions(body) != []
    decreases |body|, 1
  {
    var comma := Find(body, 0, ',');
    if comma == |body| {
      InsideDepth(inside, 1, from, 0);
      EmptyIff(body);
    } else {
      assert body[comma + 1..] == inside[from + comma + 1..Close(inside, 1)];
      OptionsNotEmpty(inside, body[comma + 1..], from + comma + 1);
    }
  }

  // ---- Patterns ---------------------------------------------------------------------------

  /** Text, a group of options, and what follows, to any depth. */
  datatype Pattern = Text(text: string) | Group(before: string, options: Options, rest: Pattern)
  datatype Options = One(first: Pattern) | More(first: Pattern, others: Options)

  function Print(p: Pattern): string {
    match p
    case Text(text) => text
    case Group(before, options, rest) => before + "{" + PrintOptions(options) + "}" + Print(rest)
  }

  function PrintOptions(o: Options): string {
    match o
    case One(first) => Print(first)
    case More(first, others) => Print(first) + "," + PrintOptions(others)
  }

  /** What a pattern stands for: one option for each group, in lexicographic order. */
  function Denote(p: Pattern): seq<string> {
    match p
    case Text(text) => [text]
    case Group(before, options, rest) => Product(before, DenoteOptions(options), Denote(rest))
  }

  function DenoteOptions(o: Options): seq<string> {
    match o
    case One(first) => Denote(first)
    case More(first, others) => Denote(first) + DenoteOptions(others)
  }

  function OptionCount(o: Options): nat {
    match o
    case One(first) => Count(first)
    case More(first, others) => Count(first) + OptionCount(others)
  }

  /** The product of the numbers of options. */
  function Count(p: Pattern): nat {
    match p
    case Text(_) => 1
    case Group(_, options, rest) => OptionCount(options) * Count(rest)
  }

  lemma {:induction false} DenoteCount(p: Pattern)
    ensures |Denote(p)| == Count(p) && Count(p) > 0
    decreases p
  {
    if p.Group? {
      DenoteCount(p.rest);
      DenoteOptionsCount(p.options);
      ProductLength(p.before, DenoteOptions(p.options), Denote(p.rest));
      assert OptionCount(p.options) * Count(p.rest) >= 1 * Count(p.rest);
    }
  }

  lemma {:induction false} DenoteOptionsCount(o: Options)
    ensures |DenoteOptions(o)| == OptionCount(o) && OptionCount(o) > 0
    decreases o
  {
    DenoteCount(o.first);
    if o.More? { DenoteOptionsCount(o.others); }
  }

  /** Text outside groups has no opening brace; inside, no brace or comma at all. */
  predicate PlainText(t: string, inside: bool) {
    '{' !in t && (inside ==> '}' !in t && ',' !in t)
  }

  predicate Wf(p: Pattern, inside: bool) {
    match p
    case Text(text) => PlainText(text, inside)
    case Group(before, options, rest) => PlainText(before, inside) && WfOptions(options) && Wf(rest, inside)
  }

  predicate WfOptions(o: Options) {
    Wf(o.first, true) && (o.More? ==> WfOptions(o.others))
  }

  /** Every group, at any depth, has a single option. */
  predicate Single(p: Pattern) {
    p.Group? ==> p.options.One? && Single(p.options.first) && Single(p.rest)
  }

  /** Groups inside groups have a single option: they only add braces. */
  predicate Flat(p: Pattern) {
    p.Group? ==> AllSingle(p.options) && Flat(p.rest)
  }

  predicate AllSingle(o: Options) {
    Single(o.first) && (o.More? ==> AllSingle(o.others))
  }

  // ---- Reading a printed pattern ----------------------------------------------------------

  /** A printed group and what comes after it, from the front. */
  function Laid(before: string, options: string, after: string): string {
    before + ("{" + (options + ("}" + after)))
  }

  lemma PrintLaid(before: string, o: Options, rest: Pattern, tail: string)
    ensures Print(Group(before, o, rest)) + tail == Laid(before, PrintOptions(o), Print(rest) + tail)
    ensures |Print(Group(before, o, rest))| == |before| + |PrintOptions(o)| + |Print(rest)| + 2
  {}

  lemma CloseBraces(n: nat, s: string)
    requires n >= 1
    ensures Close("{" + s, n) == 1 + Close(s, n + 1) && Close("}" + s, n + 1) == 1 + Close(s, n)
    ensures Close("}" + s, 1) == 0
  {
    assert ("{" + s)[1..] == s && ("}" + s)[1..] == s;
  }

  /** The inside of a group does not end the group. */
  lemma {:induction false} CloseSkips(p: Pattern, tail: string, n: nat)
    requires Wf(p, true) && n >= 1
    ensures Close(Print(p) + tail, n) == |Print(p)| + Close(tail, n)
    decreases p
  {
    match p
    case Text(text) => CloseSkipsText(text, tail, n);
    case Group(before, options, rest) => CloseSkipsGroup(before, options, rest, tail, n);
  }

  lemma {:induction false} CloseSkipsGroup(before: string, options: Options, rest: Pattern, tail: string, n: nat)
    requires PlainText(before, true) && WfOptions(options) && Wf(rest, true) && n >= 1
    ensures Close(Print(Group(before, options, rest)) + tail, n)
         == |Print(Group(before, options, rest))| + Close(tail, n)
    decreases Group(before, options, rest), 0
  {
    hide Close, Print, PrintOptions, Wf, WfOptions, PlainText;
    PrintLaid(before, options, rest, tail);
    var afterOptions := Print(rest) + tail;
    var afterBrace := PrintOptions(options) + ("}" + afterOptions);
    CloseSkipsText(before, "{" + afterBrace, n);
    CloseBraces(n, afterBrace);
    CloseSkipsOptions(options, "}" + afterOptions, n + 1);
    CloseBraces(n, afterOptions);
    CloseSkips(rest, tail, n);
  }

  lemma {:induction false} CloseSkipsText(t: string, tail: string, n: nat)
    requires PlainText(t, true) && n >= 1
    ensures Close(t + tail, n) == |t| + Close(tail, n)
    decreases |t|
  {
    if t == [] {
      assert t + tail == tail;
    } else {
      assert (t + tail)[1..] == t[1..] + tail;
      CloseSkipsText(t[1..], tail, n);
    }
  }

  lemma {:induction false} CloseSkipsOptions(o: Options, tail: string, n: nat)
    requires WfOptions(o) && n >= 1
    ensures Close(PrintOptions(o) + tail, n) == |PrintOptions(o)| + Close(tail, n)
    decreases o
  {
    match o
    case One(first) => CloseSkips(first, tail, n);
    case More(first, others) =>
      var afterComma := PrintOptions(others) + tail;
      assert PrintOptions(o) + tail == Print(first) + ("," + afterComma);
      CloseSkips(first, "," + afterComma, n);
      assert ("," + afterComma)[1..] == afterComma;
      CloseSkipsOptions(others, tail, n);
  }

  lemma ExpandLaid(before: string, inside: string, after: string)
    requires '{' !in before && Close(inside + ("}" + after), 1) == |inside|
    ensures Expand(Laid(before, inside, after)) == Product(before, ExpandOptions(inside), Expand(after))
  {
    hide ExpandOptions, Product, Close, Expand;
    var s := Laid(before, inside, after);
    FindIs(s, 0, '{', |before|);
    assert s[..|before|] == before;
    assert s[|before| + 1..] == inside + ("}" + after);
    assert (inside + ("}" + after))[..|inside|] == inside;
    assert (inside + ("}" + after))[|inside| + 1..] == after;
    ExpandAt(s, |before|, inside + ("}" + after), |inside|);
  }

  lemma ExpandAt(s: string, open: nat, inside: string, close: nat)
    requires Find(s, 0, '{') == open < |s| && inside == s[open + 1..] && Close(inside, 1) == close < |inside|
    ensures Expand(s) == Product(s[..open], ExpandOptions(inside[..close]), Expand(inside[close + 1..]))
  {}

  /** Expanding a printed group takes the group apart where it was put together. */
  lemma ExpandGroup(before: string, o: Options, rest: Pattern)
    requires '{' !in before && WfOptions(o)
    ensures Expand(Print(Group(before, o, rest)))
         == Product(before, ExpandOptions(PrintOptions(o)), Expand(Print(rest)))
  {
    hide Expand, ExpandOptions, Product, Close, Laid, Print, PrintOptions;
    var p := Group(before, o, rest);
    PrintLaid(before, o, rest, []);
    assert Print(p) + [] == Print(p) && Print(rest) + [] == Print(rest);
    CloseBraces(1, Print(rest));
    CloseSkipsOptions(o, "}" + Print(rest), 1);
    ExpandLaid(before, PrintOptions(o), Print(rest));
  }

  lemma ExpandText(t: string)
    requires '{' !in t
    ensures Expand(t) == [t]
  {
    FindIs(t, 0, '{', |t|);
  }

  /** Nothing is divided inside an option whose groups all have one option. */
  lemma {:induction false} SingleHasNoComma(p: Pattern)
    requires Wf(p, true) && Single(p)
    ensures ',' !in Print(p)
    decreases p
  {
    if p.Group? {
      SingleHasNoComma(p.options.first);
      SingleHasNoComma(p.rest);
    }
  }

  lemma ExpandOptionsMore(s: string, tail: string)
    requires ',' !in s
    ensures ExpandOptions(s + "," + tail) == Expand(s) + ExpandOptions(tail)
  {
    var body := s + "," + tail;
    FindIs(body, 0, ',', |s|);
    assert body[..|s|] == s && body[|s| + 1..] == tail;
  }

  lemma ExpandOptionsOne(s: string)
    requires ',' !in s
    ensures ExpandOptions(s) == Expand(s)
  {
    FindIs(s, 0, ',', |s|);
  }

  /** On patterns whose inner groups only add braces, expansion yields what the pattern stands
      for. */
  lemma {:induction false} FlatDenotes(p: Pattern, inside: bool)
    requires Wf(p, inside) && Flat(p)
    ensures Expand(Print(p)) == Denote(p)
    decreases p
  {
    if p.Text? {
      ExpandText(p.text);
    } else {
      ExpandGroup(p.before, p.options, p.rest);
      OptionsDenote(p.options);
      FlatDenotes(p.rest, inside);
    }
  }

  lemma {:induction false} SingleIsFlat(p: Pattern)
    requires Single(p)
    ensures Flat(p)
    decreases p
  {
    if p.Group? { SingleIsFlat(p.rest); }
  }

  lemma {:induction false} OptionsDenote(o: Options)
    requires WfOptions(o) && AllSingle(o)
    ensures ExpandOptions(PrintOptions(o)) == DenoteOptions(o)
    decreases o
  {
    SingleHasNoComma(o.first);
    SingleIsFlat(o.first);
    FlatDenotes(o.first, true);
    match o
    case One(first) => ExpandOptionsOne(Print(first));
    case More(first, others) =>
      ExpandOptionsMore(Print(first), PrintOptions(others));
      OptionsDenote(others);
  }

  // ---- Commas in inner groups -------------------------------------------------------------

  function Closers(s: string): nat {
    if s == [] then 0 else (if s[0] == '}' then 1 else 0) + Closers(s[1..])
  }

  lemma {:induction false} ClosersAppend(s: string, t: string)
    ensures Closers(s + t) == Closers(s) + Closers(t)
    decreases |s|
  {
    if s == [] {
      assert s + t == t;
    } else {
      assert (s + t)[1..] == s[1..] + t;
      ClosersAppend(s[1..], t);
    }
  }

  lemma {:induction false} NoClosers(s: string)
    requires '}' !in s
    ensures Closers(s) == 0
    decreases |s|
  {
    if s == [] {
    } else {
      NoClosers(s[1..]);
    }
  }

  /** The closing braces in the text outside all groups. */
  function Stray(p: Pattern): nat {
    match p
    case Text(text) => Closers(text)
    case Group(before, _, rest) => Closers(before) + Stray(rest)
  }

  lemma {:induction false} ProductMember(before: string, options: seq<string>, rest: seq<string>, s: string)
    returns (o: string, r: string)
    requires s in Product(before, options, rest)
    ensures o in options && r in rest && s == before + o + r
    decreases |options|
  {
    if s in Row(before + options[0], rest) {
      var j :| 0 <= j < |rest| && s == before + options[0] + rest[j];
      o, r := options[0], rest[j];
    } else {
      o, r := ProductMember(before, options[1..], rest, s);
    }
  }

  lemma ProductHas(before: string, options: seq<string>, rest: seq<string>, o: string, r: string)
    requires o in options && r in rest
    ensures before + o + r in Product(before, options, rest)
  {
    var i: nat :| i < |options| && options[i] == o;
    var j: nat :| j < |rest| && rest[j] == r;
    ProductAt(before, options, rest, i, j);
  }

  /** What a pattern stands for has no closing braces but those outside its groups. */
  lemma {:induction false} DenoteStray(p: Pattern, inside: bool, s: string)
    requires Wf(p, inside) && s in Denote(p)
    ensures Closers(s) == Stray(p) && (inside ==> Stray(p) == 0)
    decreases p
  {
    match p
    case Text(text) => if inside { NoClosers(text); }
    case Group(before, options, rest) =>
      var o, r := ProductMember(before, DenoteOptions(options), Denote(rest), s);
      DenoteOptionsStray(options, o);
      DenoteStray(rest, inside, r);
      ClosersAppend(before, o);
      ClosersAppend(before + o, r);
      if inside { NoClosers(before); }
  }

  lemma {:induction false} DenoteOptionsStray(o: Options, s: string)
    requires WfOptions(o) && s in DenoteOptions(o)
    ensures Closers(s) == 0
    decreases o
  {
    if s in Denote(o.first) { DenoteStray(o.first, true, s); } else { DenoteOptionsStray(o.others, s); }
  }

  // The part of a printed group after its last inner comma, read as a pattern of its own.

  function Prepend(t: string, p: Pattern): Pattern {
    match p
    case Text(text) => Text(t + text)
    case Group(before, options, rest) => Group(t + before, options, rest)
  }

  function Append(p: Pattern, t: string, q: Pattern): Pattern {
    match p
    case Text(text) => Prepend(text + t, q)
    case Group(before, options, rest) => Group(before, options, Append(rest, t, q))
  }

  /** A pattern for use outside groups, without commas. */
  predicate Part(p: Pattern) { Wf(p, false) && Single(p) && ',' !in Print(p) }

  lemma {:induction false} AppendPart(p: Pattern, t: string, q: Pattern)
    requires Part(p) && Part(q) && '{' !in t && ',' !in t
    ensures Part(Append(p, t, q)) && Print(Append(p, t, q)) == Print(p) + t + Print(q)
    ensures Stray(Append(p, t, q)) == Stray(p) + Closers(t) + Stray(q)
    decreases p
  {
    match p
    case Text(text) =>
      ClosersAppend(text, t);
      PrependPart(text + t, q);
    case Group(before, options, rest) => AppendPart(rest, t, q);
  }

  lemma PrependPart(t: string, q: Pattern)
    requires Part(q) && '{' !in t && ',' !in t
    ensures Part(Prepend(t, q)) && Print(Prepend(t, q)) == t + Print(q)
    ensures Stray(Prepend(t, q)) == Closers(t) + Stray(q)
  {
    hide PrintOptions;
    match q
    case Text(text) => ClosersAppend(t, text);
    case Group(before, options, rest) =>
      ClosersAppend(t, before);
      Regrouped(t, before, PrintOptions(options), Print(rest));
  }

  lemma Regrouped(t: string, before: string, options: string, rest: string)
    ensures (t + before) + "{" + options + "}" + rest == t + (before + "{" + options + "}" + rest)
  {}

  lemma {:induction false} InsideIsPart(p: Pattern)
    requires Wf(p, true) && Single(p)
    ensures Part(p)
    decreases p
  {
    SingleHasNoComma(p);
    WfOutside(p);
  }

  lemma {:induction false} WfOutside(p: Pattern)
    requires Wf(p, true)
    ensures Wf(p, false)
    decreases p
  {
    if p.Group? { WfOutside(p.rest); }
  }

  /** What is printed after the last comma of an inner group closes that group. */
  lemma {:induction false} LastPart(p: Pattern) returns (u: string, q: Pattern)
    requires Wf(p, true) && !Single(p)
    ensures Part(q) && Print(p) == u + "," + Print(q) && Stray(q) >= 1
    decreases p
  {
    hide PrintOptions, Part;
    var o := PrintOptions(p.options);
    if !Single(p.rest) {
      var v: string;
      v, q := LastPart(p.rest);
      SplitAfter(p.before + "{" + o + "}", v, Print(q));
      u := p.before + "{" + o + "}" + v;
    } else {
      var v, last := LastOption(p.options);
      InsideIsPart(p.rest);
      AppendPart(last, "}", p.rest);
      q := Append(last, "}", p.rest);
      SplitInside(p.before + "{", v, Print(last), Print(p.rest));
      u := p.before + "{" + v;
    }
  }

  lemma SplitAfter(s: string, v: string, q: string)
    ensures s + (v + "," + q) == s + v + "," + q
  {}

  lemma SplitInside(s: string, v: string, last: string, rest: string)
    ensures s + (v + "," + last) + "}" + rest == s + v + "," + (last + "}" + rest)
  {}

  lemma {:induction false} LastOption(o: Options) returns (u: string, q: Pattern)
    requires WfOptions(o) && !(o.One? && Single(o.first))
    ensures Part(q) && PrintOptions(o) == u + "," + Print(q)
    decreases o
  {
    if o.One? {
      u, q := LastPart(o.first);
    } else if o.others.One? && Single(o.others.first) {
      u, q := Print(o.first), o.others.first;
      InsideIsPart(q);
    } else {
      u, q := LastOption(o.others);
      u := Print(o.first) + "," + u;
    }
  }

  /** Whatever comes before a comma, the results of what comes after it are there. */
  lemma {:induction false} TailMember(u: string, tail: string, s: string)
    requires s in ExpandOptions(tail)
    ensures s in ExpandOptions(u + "," + tail)
    decreases |u|
  {
    hide Expand, ExpandOptions;
    var k := Find(u, 0, ',');
    if k == |u| {
      ExpandOptionsMore(u, tail);
    } else {
      var after := u[k + 1..];
      TailMember(after, tail, s);
      ExpandOptionsMore(u[..k], after + "," + tail);
      Regroup(u, k, tail);
    }
  }

  lemma Regroup(u: string, k: nat, tail: string)
    requires k < |u| && u[k] == ','
    ensures u[..k] + "," + (u[k + 1..] + "," + tail) == u + "," + tail
  {
    assert u == u[..k] + "," + u[k + 1..];
  }

  /** An inner comma leaves a result with a closing brace that belongs to a group. */
  lemma {:induction false} PartInOptions(p: Pattern, tail: string) returns (s: string)
    requires Wf(p, true) && !Single(p) && (tail == "" || tail[0] == ',')
    ensures s in ExpandOptions(Print(p) + tail) && Closers(s) >= 1
  {
    hide Expand, ExpandOptions, Print, Denote, Closers;
    var u, q := LastPart(p);
    s := PartExpands(q);
    var after := Print(q) + tail;
    if tail == "" {
      assert after == Print(q);
      ExpandOptionsOne(Print(q));
    } else {
      assert after == Print(q) + "," + tail[1..];
      ExpandOptionsMore(Print(q), tail[1..]);
    }
    TailMember(u, after, s);
    assert u + "," + after == Print(p) + tail;
  }

  lemma PartExpands(q: Pattern) returns (s: string)
    requires Part(q)
    ensures s in Expand(Print(q)) && Closers(s) == Stray(q)
  {
    SingleIsFlat(q);
    FlatDenotes(q, false);
    DenoteCount(q);
    s := Denote(q)[0];
    DenoteStray(q, false, s);
  }

  lemma {:induction false} OptionsWitness(o: Options) returns (s: string)
    requires WfOptions(o)
    ensures s in ExpandOptions(PrintOptions(o)) && (!AllSingle(o) ==> Closers(s) >= 1)
    decreases o
  {
    if AllSingle(o) {
      OptionsDenote(o);
      DenoteOptionsCount(o);
      s := DenoteOptions(o)[0];
    } else if o.One? {
      s := PartInOptions(o.first, "");
      assert Print(o.first) + "" == Print(o.first);
    } else if !AllSingle(o.others) {
      s := OptionsWitness(o.others);
      TailMember(Print(o.first), PrintOptions(o.others), s);
    } else {
      s := PartInOptions(o.first, "," + PrintOptions(o.others));
      assert PrintOptions(o) == Print(o.first) + ("," + PrintOptions(o.others));
    }
  }

  lemma {:induction false} Witness(p: Pattern) returns (s: string)
    requires Wf(p, false)
    ensures s in Expand(Print(p))
    ensures Closers(s) >= Stray(p) && (!Flat(p) ==> Closers(s) > Stray(p))
    decreases p
  {
    match p
    case Text(text) =>
      ExpandText(text);
      s := text;
    case Group(before, options, rest) =>
      ExpandGroup(before, options, rest);
      var o := OptionsWitness(options);
      var r := Witness(rest);
      s := before + o + r;
      ProductHas(before, ExpandOptions(PrintOptions(options)), Expand(Print(rest)), o, r);
      ClosersAppend(before, o);
      ClosersAppend(before + o, r);
  }

  /** Expansion yields what a pattern stands for exactly when its inner groups have no comma. */
  lemma DenotesIff(p: Pattern)
    requires Wf(p, false)
    ensures Expand(Print(p)) == Denote(p) <==> Flat(p)
  {
    if Flat(p) {
      FlatDenotes(p, false);
    } else {
      var s := Witness(p);
      if s in Denote(p) { DenoteStray(p, false, s); }
    }
  }

  // ---- Any text with a group --------------------------------------------------------------

  /** Opening braces less closing ones. */
  function Braces(s: string): int {
    if s == [] then 0 else (if s[0] == '{' then 1 else if s[0] == '}' then -1 else 0) + Braces(s[1..])
  }

  predicate Balanced(s: string) {
    Braces(s) == 0 && forall k: nat :: k <= |s| ==> Braces(s[..k]) >= 0
  }

  function Commas(parts: seq<string>): string {
    if parts == [] then "" else if |parts| == 1 then parts[0] else parts[0] + "," + Commas(parts[1..])
  }

  function ExpandParts(parts: seq<string>): seq<string> {
    if parts == [] then [] else Expand(parts[0]) + ExpandParts(parts[1..])
  }

  /** As long as every group but the outer ones is closed, the search goes on behind the text. */
  lemma {:induction false} ClosePast(s: string, after: string, n: int)
    requires n >= 1 && forall k: nat :: k <= |s| ==> n + Braces(s[..k]) >= 1
    ensures n + Braces(s) >= 1 && Close(s + after, n) == |s| + Close(after, n + Braces(s))
    decreases |s|
  {
    assert s[..|s|] == s;
    if s == [] {
      assert s + after == after;
    } else {
      assert (s + after)[1..] == s[1..] + after && s[..1][1..] == [];
      assert Braces(s[..1]) == (if s[0] == '{' then 1 else if s[0] == '}' then -1 else 0);
      forall k: nat | k <= |s| - 1 ensures Nest(n, s[0]) + Braces(s[1..][..k]) >= 1 {
        assert s[..k + 1][1..] == s[1..][..k];
        assert n + Braces(s[..k + 1]) >= 1;
      }
      ClosePast(s[1..], after, Nest(n, s[0]));
    }
  }

  lemma {:induction false} PartsExpand(parts: seq<string>)
    requires parts != [] && forall i :: 0 <= i < |parts| ==> ',' !in parts[i]
    ensures ExpandOptions(Commas(parts)) == ExpandParts(parts)
    decreases |parts|
  {
    hide Expand;
    var body := Commas(parts);
    if |parts| == 1 {
      FindIs(body, 0, ',', |body|);
      assert ExpandParts(parts[1..]) == [];
    } else {
      FindIs(body, 0, ',', |parts[0]|);
      assert body[..|parts[0]|] == parts[0] && body[|parts[0]| + 1..] == Commas(parts[1..]);
      PartsExpand(parts[1..]);
    }
  }

  /** Result number `k` is this text. */
  predicate HasAt(results: seq<string>, k: int, text: string) {
    0 <= k < |results| && results[k] == text
  }

  /** Whatever the text: with its first opening brace matched, result number `i * |rest| + j` is
      what stands before, the `i`-th result of all comma-separated parts, and the `j`-th of what
      follows, which has `|rest|` results. */
  lemma ResultAt(before: string, parts: seq<string>, after: string, i: nat, j: nat)
    requires '{' !in before && parts != [] && forall k :: 0 <= k < |parts| ==> ',' !in parts[k]
    requires Balanced(Commas(parts))
    requires i < |ExpandParts(parts)| && j < |Expand(after)|
    ensures var results := Expand(before + ("{" + (Commas(parts) + ("}" + after))));
            && |results| == |ExpandParts(parts)| * |Expand(after)|
            && HasAt(results, i * |Expand(after)| + j, before + ExpandParts(parts)[i] + Expand(after)[j])
  {
    hide Expand, ExpandOptions, ExpandParts, Commas, Product, Balanced;
    var body := Commas(parts);
    BalancedCloses(body, after);
    ExpandLaid(before, body, after);
    PartsExpand(parts);
    ProductAt(before, ExpandParts(parts), Expand(after), i, j);
  }

  lemma BalancedCloses(body: string, after: string)
    requires Balanced(body)
    ensures Close(body + ("}" + after), 1) == |body|
  {
    ClosePast(body, "}" + after, 1);
    CloseBraces(1, after);
  }

  // ---- The example of the header ----------------------------------------------------------

  const EXAMPLE: Pattern :=
    Group("aa",
      More(Group("b", More(Text(""), One(Text("e"))), Text("")),
      More(Group("", More(Text("c"), One(Text("d"))), Text("")),
      One(Text("")))),
    Text("f"))

  lemma ExpandsToNothing(before: string, after: string)
    requires '{' !in before && Close(after, 1) == |after|
    ensures Expand(before + "{" + after) == []
  {
    var s := before + "{" + after;
    FindIs(s, 0, '{', |before|);
    assert s[|before| + 1..] == after;
  }

  /** With a single rest, the product runs through the options. */
  lemma {:induction false} ProductOfOne(before: string, options: seq<string>, r: string, result: seq<string>)
    requires |result| == |options| && forall i :: 0 <= i < |options| ==> result[i] == before + options[i] + r
    ensures Product(before, options, [r]) == result
  {
    if options == [] {
    } else {
      ProductOfOne(before, options[1..], r, result[1..]);
      assert Row(before + options[0], [r]) == [result[0]];
    }
  }

  lemma DenotePair(before: string, x: string, y: string, r: seq<string>)
    requires r == [before + x, before + y]
    ensures Denote(Group(before, More(Text(x), One(Text(y))), Text(""))) == r
  {
    hide Product;
    var o := More(Text(x), One(Text(y)));
    assert DenoteOptions(o.others) == [y];
    assert DenoteOptions(o) == [x] + [y] == [x, y];
    DenoteGroup(before, o, "");
    assert r[0] == before + x + "" && r[1] == before + y + "";
    ProductOfOne(before, [x, y], "", r);
  }

  lemma DenoteThree(p: Pattern, q: Pattern, t: string)
    ensures DenoteOptions(More(p, More(q, One(Text(t))))) == Denote(p) + (Denote(q) + [t])
  {
    assert DenoteOptions(One(Text(t))) == [t];
    assert DenoteOptions(More(q, One(Text(t)))) == Denote(q) + [t];
  }

  lemma DenoteGroup(before: string, o: Options, t: string)
    ensures Denote(Group(before, o, Text(t))) == Product(before, DenoteOptions(o), [t])
  {}

  lemma HeaderDenotes()
    ensures Denote(EXAMPLE) == ["aabf", "aabef", "aacf", "aadf", "aaf"]
  {
    hide Product, Denote, DenoteOptions;
    assert "b" + "" == "b" && "b" + "e" == "be" && "" + "c" == "c" && "" + "d" == "d";
    DenotePair("b", "", "e", ["b", "be"]);
    DenotePair("", "c", "d", ["c", "d"]);
    DenoteThree(EXAMPLE.options.first, EXAMPLE.options.others.first, "");
    var options := ["b", "be"] + (["c", "d"] + [""]);
    assert options == ["b", "be", "c", "d", ""];
    DenoteGroup("aa", EXAMPLE.options, "f");
    ProductOfOne("aa", options, "f", ["aabf", "aabef", "aacf", "aadf", "aaf"]);
  }

  lemma HeaderOptions()
    ensures ExpandOptions("b{,e},{c,d},") == ["e}", "d}", ""]
  {
    hide Expand, ExpandOptions;
    ExpandOptionsMore("b{", "e},{c,d},");
    assert "b{" + "," + "e},{c,d}," == "b{,e},{c,d},";
    ExpandsToNothing("b", "");
    assert "b" + "{" + "" == "b{";
    ExpandOptionsMore("e}", "{c,d},");
    assert "e}" + "," + "{c,d}," == "e},{c,d},";
    ExpandText("e}");
    ExpandOptionsMore("{c", "d},");
    assert "{c" + "," + "d}," == "{c,d},";
    ExpandsToNothing("", "c");
    assert "" + "{" + "c" == "{c";
    ExpandOptionsMore("d}", "");
    assert "d}" + "," + "" == "d},";
    ExpandText("d}");
    ExpandText("");
    ExpandOptionsOne("");
  }

  /** The pattern stands for what the header lists, but expands to something else. */
  lemma HeaderExample()
    ensures Print(EXAMPLE) == "aa{b{,e},{c,d},}f"
    ensures Denote(EXAMPLE) == ["aabf", "aabef", "aacf", "aadf", "aaf"]
    ensures Expand("aa{b{,e},{c,d},}f") == ["aae}f", "aad}f", "aaf"]
  {
    hide Expand, ExpandOptions, Product, Denote, DenoteOptions;
    HeaderDenotes();
    HeaderPrints();
    ExpandGroup("aa", EXAMPLE.options, Text("f"));
    ExpandText("f");
    HeaderOptions();
    ProductOfOne("aa", ["e}", "d}", ""], "f", ["aae}f", "aad}f", "aaf"]);
  }

  lemma HeaderPrints()
    ensures Print(EXAMPLE) == "aa{b{,e},{c,d},}f" && PrintOptions(EXAMPLE.options) == "b{,e},{c,d},"
    ensures WfOptions(EXAMPLE.options)
  {
    hide Print, PrintOptions;
    PrintPair("b", "", "e");
    assert "b" + "{" + ("" + "," + "e") + "}" + "" == "b{,e}";
    PrintPair("", "c", "d");
    assert "" + "{" + ("c" + "," + "d") + "}" + "" == "{c,d}";
    PrintThree(EXAMPLE.options.first, EXAMPLE.options.others.first, "");
    assert "b{,e}" + "," + ("{c,d}" + "," + "") == "b{,e},{c,d},";
    PrintGroup("aa", EXAMPLE.options, "f");
    assert "aa" + "{" + "b{,e},{c,d}," + "}" + "f" == "aa{b{,e},{c,d},}f";
  }

  lemma PrintGroup(before: string, o: Options, t: string)
    ensures Print(Group(before, o, Text(t))) == before + "{" + PrintOptions(o) + "}" + t
  {}

  lemma PrintPair(before: string, x: string, y: string)
    ensures Print(Group(before, More(Text(x), One(Text(y))), Text(""))) == before + "{" + (x + "," + y) + "}" + ""
  {
    var o := More(Text(x), One(Text(y)));
    assert PrintOptions(o.others) == y;
    assert PrintOptions(o) == x + "," + y;
    PrintGroup(before, o, "");
  }

  lemma PrintThree(p: Pattern, q: Pattern, t: string)
    ensures PrintOptions(More(p, More(q, One(Text(t))))) == Print(p) + "," + (Print(q) + "," + t)
  {
    assert PrintOptions(One(Text(t))) == t;
    assert PrintOptions(More(q, One(Text(t)))) == Print(q) + "," + t;
  }
}
