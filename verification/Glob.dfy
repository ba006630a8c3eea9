/** The wildcard matcher `patterneq` of `niglob/niglob.c`. */
module Glob {
  import opened CStrings

  const NUL: char := '\0'

  function Lower(c: char): char {
    if 'A' <= c <= 'Z' then c - 'A' + 'a' else c
  }

  function LowerAll(s: string): (r: string)
    ensures |r| == |s| && forall i :: 0 <= i < |s| ==> r[i] == Lower(s[i])
  {
    seq(|s|, i requires 0 <= i < |s| => Lower(s[i]))
  }

  predicate CharEq(a: char, b: char, ignoreCaps: bool) {
    if ignoreCaps then Lower(a) == Lower(b) else a == b
  }

  /** What a pattern is made of: characters to be met, and stars. */
  datatype Token = Letter(c: char) | Star

  /** Reading a pattern from the left: two stars are one literal star, and a single star comes
      with the character that follows it. */
  function Tokenize(p: string): seq<Token> {
    if p == [] then []
    else if p[0] != '*' then [Letter(p[0])] + Tokenize(p[1..])
    else if |p| == 1 then [Star]
    else if p[1] == '*' then [Letter('*')] + Tokenize(p[2..])
    else [Star, Letter(p[1])] + Tokenize(p[2..])
  }

  /** Two stars never stand next to each other. */
  predicate Tokenized(toks: seq<Token>) {
    forall i :: 0 <= i < |toks| - 1 && toks[i].Star? ==> toks[i + 1].Letter?
  }

  lemma {:induction false} TokenizeTokenized(p: string)
    ensures Tokenized(Tokenize(p))
  {
    if p == [] || p == "*" {
    } else if p[0] != '*' {
      TokenizeTokenized(p[1..]);
    } else {
      TokenizeTokenized(p[2..]);
    }
  }

  // ---- The glob language, by pieces -------------------------------------------------------

  function Flatten(pieces: seq<string>): string {
    if pieces == [] then [] else pieces[0] + Flatten(pieces[1..])
  }

  /** A character token takes one matching character; a star takes any non-empty string. */
  predicate Takes(tok: Token, piece: string, ic: bool) {
    match tok
    case Letter(c) => |piece| == 1 && CharEq(piece[0], c, ic)
    case Star => piece != []
  }

  /** `pieces` gives every token its share of `v`. */
  predicate Assigns(toks: seq<Token>, pieces: seq<string>, v: string, ic: bool) {
    && |pieces| == |toks|
    && Flatten(pieces) == v
    && forall i :: 0 <= i < |toks| ==> Takes(toks[i], pieces[i], ic)
  }

  /** After its first character, a star's piece avoids the character that follows the star. */
  predicate Leftmost(toks: seq<Token>, pieces: seq<string>, ic: bool)
    requires |pieces| == |toks|
  {
    forall i, j :: 0 <= i < |toks| - 1 && toks[i].Star? && toks[i + 1].Letter? && 1 <= j < |pieces[i]| ==>
      !CharEq(pieces[i][j], toks[i + 1].c, ic)
  }

  ghost predicate InLanguage(toks: seq<Token>, v: string, ic: bool) {
    exists pieces :: Assigns(toks, pieces, v, ic)
  }

  ghost predicate InLeftmostLanguage(toks: seq<Token>, v: string, ic: bool) {
    exists pieces :: Assigns(toks, pieces, v, ic) && Leftmost(toks, pieces, ic)
  }

  // ---- The matcher, by recursion over the tokens ------------------------------------------

  /** The first position from `from` on that holds `c`; the length when there is none. */
  function FirstAt(v: string, from: nat, c: char, ic: bool): (k: nat)
    requires from <= |v|
    ensures from <= k <= |v|
    ensures forall j :: from <= j < k ==> !CharEq(v[j], c, ic)
    ensures k < |v| ==> CharEq(v[k], c, ic)
    decreases |v| - from
  {
    if from == |v| || CharEq(v[from], c, ic) then from else FirstAt(v, from + 1, c, ic)
  }

  /** Deterministic matching: a star takes one character and then runs to the first occurrence
      of the character that follows it. */
  predicate Lazy(toks: seq<Token>, v: string, ic: bool) {
    if toks == [] then v == []
    else if toks[0].Letter? then v != [] && CharEq(v[0], toks[0].c, ic) && Lazy(toks[1..], v[1..], ic)
    else if |toks| == 1 then v != []
    else if toks[1].Star? || v == [] then false
    else
      var k := FirstAt(v, 1, toks[1].c, ic);
      k < |v| && Lazy(toks[2..], v[k + 1..], ic)
  }

  function Text(buf: seq<char>): string
    requires NUL in buf
  {
    buf[..Length(buf, NUL)]
  }

  /** Matching what is left of the pattern against what is left of the value. */
  predicate Rest(P: string, p: nat, V: string, v: nat, ic: bool)
    requires p <= |P| && v <= |V|
  {
    Lazy(Tokenize(P[p..]), V[v..], ic)
  }

  lemma RestLetter(P: string, p: nat, V: string, v: nat, ic: bool)
    requires p < |P| && v <= |V| && P[p] != '*'
    ensures Rest(P, p, V, v, ic) <==> v < |V| && CharEq(V[v], P[p], ic) && Rest(P, p + 1, V, v + 1, ic)
  {
    assert P[p..][1..] == P[p + 1..];
    assert v < |V| ==> V[v..][1..] == V[v + 1..];
    assert ([Letter(P[p])] + Tokenize(P[p + 1..]))[1..] == Tokenize(P[p + 1..]);
  }

  lemma RestDoubleStar(P: string, p: nat, V: string, v: nat, ic: bool)
    requires p + 1 < |P| && v <= |V| && P[p] == P[p + 1] == '*'
    ensures Rest(P, p, V, v, ic) <==> v < |V| && CharEq(V[v], '*', ic) && Rest(P, p + 2, V, v + 1, ic)
  {
    assert P[p..][2..] == P[p + 2..];
    assert v < |V| ==> V[v..][1..] == V[v + 1..];
    assert ([Letter('*')] + Tokenize(P[p + 2..]))[1..] == Tokenize(P[p + 2..]);
  }

  lemma RestLastStar(P: string, p: nat, V: string, v: nat, ic: bool)
    requires p + 1 == |P| && v <= |V| && P[p] == '*'
    ensures Rest(P, p, V, v, ic) <==> v < |V|
  {
    assert P[p..] == ['*'];
  }

  lemma RestStar(P: string, p: nat, V: string, v: nat, ic: bool)
    requires p + 1 < |P| && v <= |V| && P[p] == '*' != P[p + 1]
    ensures Rest(P, p, V, v, ic) <==>
      && v < |V|
      && var k := FirstAt(V, v + 1, P[p + 1], ic);
         k < |V| && Rest(P, p + 2, V, k + 1, ic)
  {
    assert P[p..][2..] == P[p + 2..];
    assert ([Star, Letter(P[p + 1])] + Tokenize(P[p + 2..]))[2..] == Tokenize(P[p + 2..]);
    if v < |V| {
      FirstAtShift(V, v, 1, P[p + 1], ic);
      var k := FirstAt(V, v + 1, P[p + 1], ic);
      assert k < |V| ==> V[v..][k - v + 1..] == V[k + 1..];
    }
  }

  lemma FirstAtShift(V: string, v: nat, from: nat, c: char, ic: bool)
    requires v + from <= |V|
    ensures FirstAt(V[v..], from, c, ic) + v == FirstAt(V, v + from, c, ic)
    decreases |V| - v - from
  {
    if v + from < |V| && !CharEq(V[v + from], c, ic) {
      FirstAtShift(V, v, from + 1, c, ic);
    }
  }

  /** The matcher on two NUL-terminated buffers. Every buffer access is proved to stay at or
      before the terminator. */
  method PatternEq(pattern: seq<char>, value: seq<char>, ignoreCaps: bool) returns (r: bool)
    requires NUL in pattern && NUL in value
    ensures r == Lazy(Tokenize(Text(pattern)), Text(value), ignoreCaps)
    ensures r <==> InLeftmostLanguage(Tokenize(Text(pattern)), Text(value), ignoreCaps)
    ensures '*' !in Text(pattern) ==> (r <==> SameText(Text(pattern), Text(value), ignoreCaps))
  {
    hide Tokenize, Lazy, FirstAt, InLeftmostLanguage, SameText;
    ghost var P, V := Text(pattern), Text(value);
    if '*' !in P { StarFreeIff(P, V, ignoreCaps); }
    LazyIsLeftmost(P, V, ignoreCaps);
    assert P[0..] == P && V[0..] == V;
    var p: nat, v: nat := 0, 0;
    while pattern[p] != NUL
      invariant p <= |P| && v <= |V|
      invariant Rest(P, 0, V, 0, ignoreCaps) == Rest(P, p, V, v, ignoreCaps)
      decreases |P| - p
    {
      var want := pattern[p];
      if want == '*' {
        var next := pattern[p + 1];
        if next == '*' {
          RestDoubleStar(P, p, V, v, ignoreCaps);
          if !CharEq(value[v], '*', ignoreCaps) {
            return false;
          }
          p := p + 2;
          v := v + 1;
        } else if next == NUL {
          RestLastStar(P, p, V, v, ignoreCaps);
          if value[v] == NUL {
            return false;
          }
          return true;
        } else {
          RestStar(P, p, V, v, ignoreCaps);
          var found, at := SkipTo(value, v, next, ignoreCaps);
          if !found {
            return false;
          }
          v := at + 1;
          p := p + 2;
        }
      } else {
        RestLetter(P, p, V, v, ignoreCaps);
        if !CharEq(value[v], pattern[p], ignoreCaps) {
          return false;
        }
        p := p + 1;
        v := v + 1;
      }
    }
    RestEnd(P, V, v, ignoreCaps);
    return value[v] == NUL;
  }

  lemma RestEnd(P: string, V: string, v: nat, ic: bool)
    requires v <= |V|
    ensures Rest(P, |P|, V, v, ic) <==> v == |V|
  {}

  /** The inner loop: one character if it happens to be `next`, then on to the first `next`. */
  method SkipTo(value: seq<char>, start: nat, next: char, ignoreCaps: bool) returns (found: bool, at: nat)
    requires NUL in value && start <= Length(value, NUL) && next != NUL
    ensures var V := Text(value);
      if start == |V| then !found
      else
        var k := FirstAt(V, start + 1, next, ignoreCaps);
        found == (k < |V|) && (found ==> at == k)
  {
    ghost var V := Text(value);
    var v := start;
    if CharEq(value[v], next, ignoreCaps) {
      v := v + 1;
    }
    while !CharEq(value[v], next, ignoreCaps)
      invariant start <= v <= |V|
      invariant v == start ==> !CharEq(value[start], next, ignoreCaps)
      invariant start < |V| ==> FirstAt(V, start + 1, next, ignoreCaps) >= v
      decreases |V| - v
    {
      if value[v] == NUL {
        return false, 0;
      }
      v := v + 1;
    }
    return true, v;
  }

  // ---- The matcher accepts exactly the leftmost assignments -------------------------------

  lemma FlattenFirst(pieces: seq<string>, v: string)
    requires pieces != [] && Flatten(pieces) == v
    ensures |pieces[0]| <= |v| && v[..|pieces[0]|] == pieces[0] && v[|pieces[0]|..] == Flatten(pieces[1..])
  {}

  /** Prepending one token and its piece. */
  lemma AssignsCons(tok: Token, piece: string, toks: seq<Token>, pieces: seq<string>, v: string, ic: bool)
    requires Takes(tok, piece, ic) && Assigns(toks, pieces, v, ic)
    ensures Assigns([tok] + toks, [piece] + pieces, piece + v, ic)
  {
    var ts, ps := [tok] + toks, [piece] + pieces;
    assert ps[1..] == pieces;
    forall i | 0 <= i < |ts| ensures Takes(ts[i], ps[i], ic) {
      assert i > 0 ==> Takes(toks[i - 1], pieces[i - 1], ic);
    }
  }

  lemma LeftmostCons(tok: Token, piece: string, toks: seq<Token>, pieces: seq<string>, ic: bool)
    requires |toks| == |pieces| && Leftmost(toks, pieces, ic)
    requires tok.Star? && toks != [] && toks[0].Letter? ==>
      forall j :: 1 <= j < |piece| ==> !CharEq(piece[j], toks[0].c, ic)
    ensures Leftmost([tok] + toks, [piece] + pieces, ic)
  {
    var ts, ps := [tok] + toks, [piece] + pieces;
    forall i, j | 0 <= i < |ts| - 1 && ts[i].Star? && ts[i + 1].Letter? && 1 <= j < |ps[i]|
      ensures !CharEq(ps[i][j], ts[i + 1].c, ic)
    {
      if i > 0 {
        assert ts[i] == toks[i - 1] && ts[i + 1] == toks[i] && ps[i] == pieces[i - 1];
      }
    }
  }

  /** A matched value has an assignment in which every star stops as early as it can. */
  lemma {:induction false} LazyAssigns(toks: seq<Token>, v: string, ic: bool) returns (pieces: seq<string>)
    requires Tokenized(toks) && Lazy(toks, v, ic)
    ensures Assigns(toks, pieces, v, ic) && Leftmost(toks, pieces, ic)
    decreases |toks|, 1
  {
    if toks == [] {
      pieces := [];
    } else if toks[0].Letter? {
      var rest := LazyAssigns(toks[1..], v[1..], ic);
      pieces := [v[..1]] + rest;
      AssignsCons(toks[0], v[..1], toks[1..], rest, v[1..], ic);
      LeftmostCons(toks[0], v[..1], toks[1..], rest, ic);
      assert [toks[0]] + toks[1..] == toks && v[..1] + v[1..] == v;
    } else if |toks| == 1 {
      pieces := [v];
      assert pieces[1..] == [];
    } else {
      pieces := LazyStarAssigns(toks, v, ic);
    }
  }

  lemma {:induction false} LazyStarAssigns(toks: seq<Token>, v: string, ic: bool) returns (pieces: seq<string>)
    requires Tokenized(toks) && Lazy(toks, v, ic) && |toks| > 1 && toks[0].Star?
    ensures Assigns(toks, pieces, v, ic) && Leftmost(toks, pieces, ic)
    decreases |toks|, 0
  {
    var k := FirstAt(v, 1, toks[1].c, ic);
    var t, w := toks[2..], v[k + 1..];
    var rest := LazyAssigns(t, w, ic);
    AssignsCons(toks[1], [v[k]], t, rest, w, ic);
    LeftmostCons(toks[1], [v[k]], t, rest, ic);
    AssignsCons(toks[0], v[..k], [toks[1]] + t, [[v[k]]] + rest, [v[k]] + w, ic);
    LeftmostCons(toks[0], v[..k], [toks[1]] + t, [[v[k]]] + rest, ic);
    pieces := [v[..k]] + ([[v[k]]] + rest);
    assert [toks[0]] + ([toks[1]] + t) == toks && v[..k] + ([v[k]] + w) == v;
  }

  /** The tail of an assignment is an assignment of the tail. */
  lemma AssignsTail(toks: seq<Token>, pieces: seq<string>, v: string, ic: bool)
    requires toks != [] && Assigns(toks, pieces, v, ic)
    ensures |pieces[0]| <= |v| && v[..|pieces[0]|] == pieces[0]
    ensures Assigns(toks[1..], pieces[1..], v[|pieces[0]|..], ic)
    ensures Leftmost(toks, pieces, ic) ==> Leftmost(toks[1..], pieces[1..], ic)
    ensures Tokenized(toks) ==> Tokenized(toks[1..])
  {
    FlattenFirst(pieces, v);
    forall i | 0 <= i < |toks[1..]| ensures Takes(toks[1..][i], pieces[1..][i], ic) {
      assert Takes(toks[i + 1], pieces[i + 1], ic);
    }
  }

  lemma FirstAtIs(v: string, from: nat, k: nat, c: char, ic: bool)
    requires from <= k < |v| && CharEq(v[k], c, ic)
    ensures FirstAt(v, from, c, ic) <= k
    ensures (forall j :: from <= j < k ==> !CharEq(v[j], c, ic)) ==> FirstAt(v, from, c, ic) == k
  {}

  lemma {:induction false} AssignsLazy(toks: seq<Token>, pieces: seq<string>, v: string, ic: bool)
    requires Tokenized(toks) && Assigns(toks, pieces, v, ic) && Leftmost(toks, pieces, ic)
    ensures Lazy(toks, v, ic)
    decreases |toks|
  {
    if toks == [] {
    } else {
      assert Takes(toks[0], pieces[0], ic);
      AssignsTail(toks, pieces, v, ic);
      if toks[0].Letter? {
        AssignsLazy(toks[1..], pieces[1..], v[1..], ic);
      } else if |toks| > 1 {
        var k := |pieces[0]|;
        assert Takes(toks[1], pieces[1], ic);
        AssignsTail(toks[1..], pieces[1..], v[k..], ic);
        assert toks[1..][1..] == toks[2..] && v[k..][1..] == v[k + 1..];
        AssignsLazy(toks[2..], pieces[1..][1..], v[k + 1..], ic);
        FirstAtIs(v, 1, k, toks[1].c, ic);
      }
    }
  }

  lemma LazyIsLeftmost(p: string, v: string, ic: bool)
    ensures Lazy(Tokenize(p), v, ic) <==> InLeftmostLanguage(Tokenize(p), v, ic)
  {
    var toks := Tokenize(p);
    TokenizeTokenized(p);
    if Lazy(toks, v, ic) {
      var pieces := LazyAssigns(toks, v, ic);
    }
    if InLeftmostLanguage(toks, v, ic) {
      var pieces :| Assigns(toks, pieces, v, ic) && Leftmost(toks, pieces, ic);
      AssignsLazy(toks, pieces, v, ic);
    }
  }

  /** What the matcher accepts is in the glob language. */
  lemma Sound(p: string, v: string, ic: bool)
    requires Lazy(Tokenize(p), v, ic)
    ensures InLanguage(Tokenize(p), v, ic)
  {
    TokenizeTokenized(p);
    var pieces := LazyAssigns(Tokenize(p), v, ic);
  }

  // ---- When the matcher misses nothing ----------------------------------------------------

  /** Every character that follows a star is itself followed by a star. */
  predicate StarsSeparated(toks: seq<Token>) {
    forall i :: 0 <= i < |toks| - 1 && toks[i].Star? ==> i + 2 < |toks| && toks[i + 2].Star?
  }

  /** Exchange: what a leading star does not need to skip yet, it can take into its piece. */
  lemma StarAbsorbs(toks: seq<Token>, pieces: seq<string>, v: string, x: string, ic: bool)
    requires toks != [] && toks[0].Star? && Assigns(toks, pieces, v, ic)
    ensures Assigns(toks, [x + pieces[0]] + pieces[1..], x + v, ic)
  {
    var more := [x + pieces[0]] + pieces[1..];
    assert Takes(toks[0], pieces[0], ic);
    assert more[1..] == pieces[1..];
    assert x + v == (x + pieces[0]) + Flatten(pieces[1..]);
    forall i | 0 <= i < |toks| ensures Takes(toks[i], more[i], ic) {
      assert Takes(toks[i], pieces[i], ic);
    }
  }

  /** A star may give up everything after the first occurrence of the character that follows
      it, if another star comes next. */
  lemma StarExchange(toks: seq<Token>, pieces: seq<string>, v: string, ic: bool) returns (k: nat, ps: seq<string>)
    requires |toks| > 2 && toks[0].Star? && toks[1].Letter? && toks[2].Star?
    requires Assigns(toks, pieces, v, ic)
    ensures v != [] && k == FirstAt(v, 1, toks[1].c, ic) < |v|
    ensures Assigns(toks[2..], ps, v[k + 1..], ic)
  {
    assert Takes(toks[0], pieces[0], ic) && Takes(toks[1], pieces[1], ic);
    var n := |pieces[0]|;
    AssignsTail(toks, pieces, v, ic);
    AssignsTail(toks[1..], pieces[1..], v[n..], ic);
    var rest, w := pieces[1..][1..], v[n + 1..];
    assert toks[1..][1..] == toks[2..] && v[n..][1..] == w;
    FirstAtIs(v, 1, n, toks[1].c, ic);
    k := FirstAt(v, 1, toks[1].c, ic);
    var x := v[k + 1..n + 1];
    StarAbsorbs(toks[2..], rest, w, x, ic);
    ps := [x + rest[0]] + rest[1..];
    assert v[k + 1..] == x + w;
  }

  lemma {:induction false} SeparatedComplete(toks: seq<Token>, pieces: seq<string>, v: string, ic: bool)
    requires Tokenized(toks) && StarsSeparated(toks) && Assigns(toks, pieces, v, ic)
    ensures Lazy(toks, v, ic)
    decreases |toks|
  {
    if toks == [] {
    } else {
      assert Takes(toks[0], pieces[0], ic);
      AssignsTail(toks, pieces, v, ic);
      if toks[0].Letter? {
        SeparatedComplete(toks[1..], pieces[1..], v[1..], ic);
      } else if |toks| > 1 {
        var k, ps := StarExchange(toks, pieces, v, ic);
        SeparatedComplete(toks[2..], ps, v[k + 1..], ic);
      }
    }
  }

  /** A string that the tokens accept, one character each. */
  function Sample(toks: seq<Token>): (pieces: seq<string>)
    ensures |pieces| == |toks|
  {
    seq(|toks|, i requires 0 <= i < |toks| => if toks[i].Letter? then [toks[i].c] else "a")
  }

  lemma {:induction false} FlattenAvoids(pieces: seq<string>)
    requires forall i :: 0 <= i < |pieces| ==> NUL !in pieces[i]
    ensures NUL !in Flatten(pieces)
  {
    if pieces == [] {
    } else {
      FlattenAvoids(pieces[1..]);
    }
  }

  ghost predicate LettersNonNul(toks: seq<Token>) {
    forall i :: 0 <= i < |toks| && toks[i].Letter? ==> toks[i].c != NUL
  }

  /** When some character after a star is not followed by a star, a value of the language is
      missed: the star stops at a first occurrence after which nothing fits. */
  lemma {:induction false} UnseparatedMisses(toks: seq<Token>, ic: bool) returns (pieces: seq<string>, v: string)
    requires Tokenized(toks) && LettersNonNul(toks) && !StarsSeparated(toks)
    ensures Assigns(toks, pieces, v, ic) && !Lazy(toks, v, ic) && NUL !in v
    decreases |toks|
  {
    hide Flatten;
    if toks[0].Letter? {
      var ps, w := UnseparatedMisses(toks[1..], ic);
      pieces, v := [[toks[0].c]] + ps, [toks[0].c] + w;
      AssignsCons(toks[0], [toks[0].c], toks[1..], ps, w, ic);
      assert [toks[0]] + toks[1..] == toks && v[1..] == w;
    } else if |toks| > 2 && toks[2].Star? {
      var ps, w := UnseparatedMisses(toks[2..], ic);
      pieces, v := StarBefore(toks, "a", ps, w, ic);
      FirstAtIs(v, 1, 1, toks[1].c, ic);
      assert v[2..] == w;
    } else {
      var t := toks[2..];
      var d := if t != [] && CharEq('a', t[0].c, ic) then 'b' else 'a';
      FlattenAvoids(Sample(t));
      pieces, v := StarBefore(toks, ['a', toks[1].c, d], Sample(t), Flatten(Sample(t)), ic);
      FirstAtIs(v, 1, 1, toks[1].c, ic);
      assert v[2..][0] == d;
    }
  }

  /** Prepending a star with its piece and the character after it. */
  lemma StarBefore(toks: seq<Token>, piece: string, ps: seq<string>, w: string, ic: bool)
    returns (pieces: seq<string>, v: string)
    requires |toks| > 1 && toks[0].Star? && toks[1].Letter? && piece != []
    requires Assigns(toks[2..], ps, w, ic)
    ensures Assigns(toks, pieces, v, ic) && v == piece + [toks[1].c] + w
  {
    var c, t := toks[1].c, toks[2..];
    AssignsCons(toks[1], [c], t, ps, w, ic);
    AssignsCons(toks[0], piece, [toks[1]] + t, [[c]] + ps, [c] + w, ic);
    pieces, v := [piece] + ([[c]] + ps), piece + ([c] + w);
    assert [toks[0]] + ([toks[1]] + t) == toks;
  }

  /** The matcher accepts every value of the glob language exactly when every character that
      follows a star is itself followed by a star. */
  lemma CompleteIff(p: string, ic: bool)
    requires NUL !in p
    ensures StarsSeparated(Tokenize(p)) <==>
      forall v :: NUL !in v && InLanguage(Tokenize(p), v, ic) ==> Lazy(Tokenize(p), v, ic)
  {
    var toks := Tokenize(p);
    TokenizeTokenized(p);
    TokenizeNonNul(p);
    if StarsSeparated(toks) {
      forall v | InLanguage(toks, v, ic) ensures Lazy(toks, v, ic) {
        var pieces :| Assigns(toks, pieces, v, ic);
        SeparatedComplete(toks, pieces, v, ic);
      }
    } else {
      var pieces, v := UnseparatedMisses(toks, ic);
      assert InLanguage(toks, v, ic);
    }
  }

  lemma {:induction false} TokenizeNonNul(p: string)
    requires NUL !in p
    ensures LettersNonNul(Tokenize(p))
  {
    if p == [] || p == "*" {
    } else if p[0] != '*' {
      TokenizeNonNul(p[1..]);
    } else {
      TokenizeNonNul(p[2..]);
    }
  }

  // ---- Ignoring case ----------------------------------------------------------------------

  function LowerToken(tok: Token): Token {
    if tok.Letter? then Letter(Lower(tok.c)) else Star
  }

  lemma {:induction false} TokenizeLower(p: string)
    ensures |Tokenize(LowerAll(p))| == |Tokenize(p)|
    ensures forall i :: 0 <= i < |Tokenize(p)| ==> Tokenize(LowerAll(p))[i] == LowerToken(Tokenize(p)[i])
  {
    if p == [] || p == "*" {
    } else if p[0] != '*' {
      TokenizeLower(p[1..]);
      assert LowerAll(p)[1..] == LowerAll(p[1..]);
    } else {
      TokenizeLower(p[2..]);
      assert LowerAll(p)[2..] == LowerAll(p[2..]);
    }
  }

  lemma {:induction false} FirstAtLower(v: string, from: nat, c: char)
    requires from <= |v|
    ensures FirstAt(v, from, c, true) == FirstAt(LowerAll(v), from, Lower(c), false)
    decreases |v| - from
  {
    if from < |v| && !CharEq(v[from], c, true) {
      FirstAtLower(v, from + 1, c);
    }
  }

  lemma {:induction false} LazyLower(toks: seq<Token>, lower: seq<Token>, v: string)
    requires |lower| == |toks| && forall i :: 0 <= i < |toks| ==> lower[i] == LowerToken(toks[i])
    ensures Lazy(toks, v, true) == Lazy(lower, LowerAll(v), false)
    decreases |toks|
  {
    if toks == [] || v == [] {
    } else if toks[0].Letter? {
      LazyLower(toks[1..], lower[1..], v[1..]);
      assert LowerAll(v)[1..] == LowerAll(v[1..]);
    } else if |toks| > 1 && toks[1].Letter? {
      FirstAtLower(v, 1, toks[1].c);
      var k := FirstAt(v, 1, toks[1].c, true);
      if k < |v| {
        LazyLower(toks[2..], lower[2..], v[k + 1..]);
        assert LowerAll(v)[k + 1..] == LowerAll(v[k + 1..]);
      }
    }
  }

  /** Ignoring case is matching the lower-cased pattern against the lower-cased value. */
  lemma IgnoringCase(p: string, v: string)
    ensures Lazy(Tokenize(p), v, true) == Lazy(Tokenize(LowerAll(p)), LowerAll(v), false)
  {
    TokenizeLower(p);
    LazyLower(Tokenize(p), Tokenize(LowerAll(p)), v);
  }

  // ---- Case, and patterns without stars, said letter by letter ----------------------------

  const UPPER: string := "ABCDEFGHIJKLMNOPQRSTUVWXYZ"
  const LOWER: string := "abcdefghijklmnopqrstuvwxyz"

  /** The two cases of one letter. */
  predicate Cases(up: char, low: char) {
    exists i :: 0 <= i < 26 && up == UPPER[i] && low == LOWER[i]
  }

  /** The same character, or the two cases of one letter. */
  predicate SameLetter(a: char, b: char) {
    a == b || Cases(a, b) || Cases(b, a)
  }

  lemma UpperAt(i: nat)
    requires i < 26
    ensures UPPER[i] == 'A' + i as char && LOWER[i] == 'a' + i as char
  {}

  lemma CasesLower(up: char, low: char)
    ensures Cases(up, low) <==> up != low && 'A' <= up <= 'Z' && Lower(up) == low
  {
    if 'A' <= up <= 'Z' { UpperAt((up - 'A') as nat); }
    if i :| 0 <= i < 26 && up == UPPER[i] && low == LOWER[i] { UpperAt(i); }
  }

  /** Without regard to case, two characters are equal exactly when they are the same or the two
      cases of one letter; otherwise, exactly when they are the same. */
  lemma CharEqIff(a: char, b: char)
    ensures CharEq(a, b, true) <==> SameLetter(a, b)
    ensures CharEq(a, b, false) <==> a == b
  {
    hide Cases;
    CasesLower(a, b);
    CasesLower(b, a);
  }

  /** The value is the pattern, up to the case of letters if that is ignored. */
  predicate SameText(p: string, v: string, ic: bool) {
    |p| == |v| && forall i :: 0 <= i < |p| ==> if ic then SameLetter(v[i], p[i]) else v[i] == p[i]
  }

  /** With case ignored, letters of the pattern or of the value may change their case. */
  lemma CaseIsIgnored(p: string, p': string, v: string, v': string)
    requires SameText(p, p', true) && SameText(v, v', true)
    ensures Lazy(Tokenize(p), v, true) == Lazy(Tokenize(p'), v', true)
  {
    IgnoringCase(p, v);
    IgnoringCase(p', v');
    SameLower(p, p');
    SameLower(v, v');
  }

  lemma SameLower(s: string, t: string)
    requires SameText(s, t, true)
    ensures LowerAll(s) == LowerAll(t)
  {
    forall i | 0 <= i < |s| ensures Lower(s[i]) == Lower(t[i]) { CharEqIff(t[i], s[i]); }
  }

  /** A pattern without stars matches exactly itself, up to case if case is ignored. */
  lemma {:induction false} StarFreeIff(p: string, v: string, ic: bool)
    requires '*' !in p
    ensures Lazy(Tokenize(p), v, ic) <==> SameText(p, v, ic)
    decreases |p|
  {
    hide CharEq, SameLetter;
    if p == [] {
    } else if v == [] {
    } else {
      StarFreeIff(p[1..], v[1..], ic);
      CharEqIff(v[0], p[0]);
      assert ([Letter(p[0])] + Tokenize(p[1..]))[1..] == Tokenize(p[1..]);
      SameTextStep(p, v, ic);
    }
  }

  lemma SameTextStep(p: string, v: string, ic: bool)
    requires p != [] && v != []
    ensures SameText(p, v, ic) <==>
      (if ic then SameLetter(v[0], p[0]) else v[0] == p[0]) && SameText(p[1..], v[1..], ic)
  {
    hide SameLetter;
    if (if ic then SameLetter(v[0], p[0]) else v[0] == p[0]) && SameText(p[1..], v[1..], ic) {
      forall i | 1 <= i < |p| ensures if ic then SameLetter(v[i], p[i]) else v[i] == p[i] {
        assert p[i] == p[1..][i - 1] && v[i] == v[1..][i - 1];
      }
    }
  }

  /** How tokens are written: a literal star is doubled. */
  function Written(toks: seq<Token>): string {
    if toks == [] then ""
    else (if toks[0].Star? then "*" else if toks[0].c == '*' then "**" else [toks[0].c]) + Written(toks[1..])
  }

  lemma TokenizeLetter(p: string)
    requires p != "" && p[0] != '*'
    ensures Tokenize(p) == [Letter(p[0])] + Tokenize(p[1..])
  {}

  lemma TokenizeDouble(p: string)
    requires |p| > 1 && p[0] == p[1] == '*'
    ensures Tokenize(p) == [Letter('*')] + Tokenize(p[2..])
  {}

  lemma TokenizeSingle(p: string)
    requires |p| > 1 && p[0] == '*' && p[1] != '*'
    ensures Tokenize(p) == [Star, Letter(p[1])] + Tokenize(p[2..])
  {}

  lemma TokenizeEnds()
    ensures Tokenize("") == [] && Tokenize("*") == [Star]
    ensures Written([]) == "" && Written([Star]) == "*"
  {
    WrittenCons(Star, []);
    assert [Star] + [] == [Star];
  }

  lemma WrittenPair(c: char, toks: seq<Token>)
    requires c != '*'
    ensures Written([Star, Letter(c)] + toks) == "*" + ([c] + Written(toks))
  {
    hide Written;
    WrittenCons(Letter(c), toks);
    WrittenCons(Star, [Letter(c)] + toks);
    assert [Star, Letter(c)] + toks == [Star] + ([Letter(c)] + toks);
  }

  lemma Rejoined(p: string)
    ensures |p| > 0 ==> [p[0]] + p[1..] == p
    ensures |p| > 1 ==> [p[0]] + ([p[1]] + p[2..]) == p && [p[0], p[1]] + p[2..] == p
  {}

  /** Reading a pattern loses nothing: its tokens write it again. */
  lemma {:induction false} WrittenTokens(p: string)
    ensures Written(Tokenize(p)) == p
    decreases |p|
  {
    hide Tokenize, Written;
    TokenizeEnds();
    Rejoined(p);
    if p == "" || p == "*" {
    } else if p[0] != '*' {
      WrittenTokens(p[1..]);
      TokenizeLetter(p);
      WrittenCons(Letter(p[0]), Tokenize(p[1..]));
    } else if p[1] == '*' {
      WrittenTokens(p[2..]);
      TokenizeDouble(p);
      WrittenCons(Letter('*'), Tokenize(p[2..]));
    } else {
      WrittenTokens(p[2..]);
      TokenizeSingle(p);
      WrittenPair(p[1], Tokenize(p[2..]));
    }
  }

  lemma WrittenCons(tok: Token, toks: seq<Token>)
    ensures Written([tok] + toks)
         == (if tok.Star? then "*" else if tok.c == '*' then "**" else [tok.c]) + Written(toks)
  {
    assert ([tok] + toks)[1..] == toks;
  }
}
