/** The template compiler and renderer of `minifmt.c`. Compiling overwrites the delimiters of the
    template text with terminators; the compiled template is a list of positions into it. */
module Template {
  import opened CStrings
  import opened NumberText
  import opened Numerals
  import opened Options
  import opened TemplateSpec

  const NUL: char := '\0'

  datatype Elem = StrElem(start: nat, len: nat) | HoleElem(start: nat, flag: Option<nat>)

  // ---- Segments of the overwritten buffer -------------------------------------------------

  /** `text` stands at `start`, terminated, and ends before `limit`. */
  predicate Stored(buf: seq<char>, start: nat, text: string, limit: nat) {
    && start + |text| < limit <= |buf|
    && buf[start..start + |text|] == text
    && buf[start + |text|] == NUL
    && NUL !in text
  }

  predicate StoredElem(buf: seq<char>, e: Elem, p: Piece, limit: nat) {
    match p
    case Text(s) => e.StrElem? && Stored(buf, e.start, s, limit)
    case Hole(f) =>
      && e.HoleElem? && Stored(buf, e.start, f.key, limit)
      && (e.flag.Some? <==> f.flag.Some?)
      && (f.flag.Some? ==> Stored(buf, e.flag.value, f.flag.value, limit))
  }

  predicate StoredAll(buf: seq<char>, elems: seq<Elem>, ps: seq<Piece>, limit: nat) {
    && |elems| == |ps|
    && forall i :: 0 <= i < |ps| ==> StoredElem(buf, elems[i], ps[i], limit)
  }

  /** Writes at or after the limit leave the stored segments alone. */
  lemma StoredKept(buf: seq<char>, buf': seq<char>, elems: seq<Elem>, ps: seq<Piece>, limit: nat, limit': nat)
    requires StoredAll(buf, elems, ps, limit)
    requires limit <= limit' <= |buf| == |buf'| && buf[..limit] == buf'[..limit]
    ensures StoredAll(buf', elems, ps, limit')
  {
    forall i | 0 <= i < |ps| ensures StoredElem(buf', elems[i], ps[i], limit') {
      assert StoredElem(buf, elems[i], ps[i], limit);
      match ps[i]
      case Text(s) => StringKept(buf, buf', elems[i].start, s, limit, limit');
      case Hole(f) =>
        StringKept(buf, buf', elems[i].start, f.key, limit, limit');
        if f.flag.Some? {
          StringKept(buf, buf', elems[i].flag.value, f.flag.value, limit, limit');
        }
    }
  }

  lemma StringKept(buf: seq<char>, buf': seq<char>, start: nat, text: string, limit: nat, limit': nat)
    requires Stored(buf, start, text, limit)
    requires limit <= limit' <= |buf| == |buf'| && buf[..limit] == buf'[..limit]
    ensures Stored(buf', start, text, limit')
  {
    forall i | start <= i <= start + |text| ensures buf'[i] == buf[i] {
      assert buf[..limit][i] == buf'[..limit][i];
    }
  }

  /** What a C string function sees at the start of a stored segment is the segment. */
  lemma StoredLength(buf: seq<char>, start: nat, text: string, limit: nat)
    requires Stored(buf, start, text, limit)
    ensures NUL in buf[start..] && Length(buf[start..], NUL) == |text|
  {
    var k := start + |text|;
    TerminatorFirst(text, NUL, buf[k + 1..]);
    assert buf[start..] == buf[start..k] + [buf[k]] + buf[k + 1..];
  }

  // ---- The two states of the scan ---------------------------------------------------------

  /** What the scan has established so far: the buffer `orig` holds the template `S`, `done` are
      the pieces that are finished, and `S[seg..]` is still to be read. */
  ghost predicate Scanned(orig: seq<char>, S: string, done: seq<Piece>, seg: nat) {
    && |S| < |orig| && S == orig[..|S|] && orig[|S|] == NUL && NUL !in S
    && seg <= |S|
    && Pieces(Parse(S)) == done + Pieces(Parse(S[seg..]))
  }

  /** Outside braces, at position `p`, in the text that starts at `seg`. */
  ghost predicate InText(orig: seq<char>, S: string, buf: seq<char>, elems: seq<Elem>,
                         done: seq<Piece>, seg: nat, p: nat) {
    && Scanned(orig, S, done, seg) && |buf| == |orig|
    && seg <= p <= |S|
    && |elems| == |done| + 1 && elems[|done|].StrElem? && elems[|done|].start == seg
    && StoredAll(buf, elems[..|done|], done, seg)
    && buf[seg..] == orig[seg..]
    && '{' !in S[seg..p]
  }

  /** Inside braces, at position `p`, in the field that starts at `field`. */
  ghost predicate InField(orig: seq<char>, S: string, buf: seq<char>, elems: seq<Elem>,
                          done: seq<Piece>, seg: nat, field: nat, flag: Option<nat>, p: nat) {
    && Scanned(orig, S, done, seg) && |buf| == |orig|
    && seg < field <= p <= |S|
    && StoredAll(buf, elems, done + [Text(S[seg..field - 1])], field)
    && '{' !in S[seg..field - 1] && S[field - 1] == '{' && '}' !in S[field..p]
    && FlagState(orig, S, buf, field, flag, p)
  }

  /** The first dot of the field, if one was met, is the only byte overwritten since it began. */
  ghost predicate FlagState(orig: seq<char>, S: string, buf: seq<char>, field: nat, flag: Option<nat>, p: nat)
    requires |S| < |orig| == |buf| && field <= p <= |S|
  {
    match flag
    case None => '.' !in S[field..p] && buf[field..] == orig[field..]
    case Some(f) =>
      && field < f <= p && S[f - 1] == '.' && '.' !in S[field..f - 1]
      && buf[field..] == orig[field..][f - 1 - field := NUL]
  }

  lemma OpenBrace(orig: seq<char>, S: string, buf: seq<char>, elems: seq<Elem>,
                  done: seq<Piece>, seg: nat, p: nat)
    requires InText(orig, S, buf, elems, done, seg, p) && p < |S| && S[p] == '{'
    ensures InField(orig, S, buf[p := NUL], elems, done, seg, p + 1, None, p + 1)
  {
    hide Parse, Pieces, StoredAll;
    var buf' := buf[p := NUL];
    StoredKept(buf, buf', elems[..|done|], done, seg, p + 1);
    assert forall i :: seg <= i < |buf| ==> buf[i] == buf[seg..][i - seg] == orig[seg..][i - seg];
    SegmentStored(S, buf', seg, p);
    StoredPush(buf', elems[..|done|], done, elems[|done|], Text(S[seg..p]), p + 1);
    assert elems == elems[..|done|] + [elems[|done|]];
  }

  lemma FirstDot(orig: seq<char>, S: string, buf: seq<char>, elems: seq<Elem>,
                 done: seq<Piece>, seg: nat, field: nat, p: nat)
    requires InField(orig, S, buf, elems, done, seg, field, None, p) && p < |S| && S[p] == '.'
    ensures InField(orig, S, buf[p := NUL], elems, done, seg, field, Some(p + 1), p + 1)
  {
    hide Parse, Pieces, StoredAll;
    StoredKept(buf, buf[p := NUL], elems, done + [Text(S[seg..field - 1])], field, field);
    assert S[field..p + 1] == S[field..p] + ['.'];
  }

  lemma FieldChar(orig: seq<char>, S: string, buf: seq<char>, elems: seq<Elem>,
                  done: seq<Piece>, seg: nat, field: nat, flag: Option<nat>, p: nat)
    requires InField(orig, S, buf, elems, done, seg, field, flag, p) && p < |S| && S[p] != '}'
    requires flag.None? ==> S[p] != '.'
    ensures InField(orig, S, buf, elems, done, seg, field, flag, p + 1)
  {
    hide Parse, Pieces, StoredAll;
    assert S[field..p + 1] == S[field..p] + [S[p]];
  }

  lemma TextChar(orig: seq<char>, S: string, buf: seq<char>, elems: seq<Elem>,
                 done: seq<Piece>, seg: nat, p: nat)
    requires InText(orig, S, buf, elems, done, seg, p) && p < |S| && S[p] != '{'
    ensures InText(orig, S, buf, elems, done, seg, p + 1)
  {
    hide Parse, Pieces, StoredAll;
    assert S[seg..p + 1] == S[seg..p] + [S[p]];
  }

  /** A segment of the template that is still in the buffer, up to a terminator at `to`. */
  lemma SegmentStored(S: string, buf: seq<char>, from: nat, to: nat)
    requires from <= to <= |S| && to < |buf| && NUL !in S && buf[to] == NUL
    requires forall i :: from <= i < to ==> buf[i] == S[i]
    ensures Stored(buf, from, S[from..to], to + 1)
  {
    assert buf[from..to] == S[from..to];
  }

  /** The bytes of the field that has just been closed are its key and its flag. */
  lemma ClosedField(orig: seq<char>, S: string, buf: seq<char>, field: nat, flag: Option<nat>, p: nat)
    requires |S| < |orig| == |buf| && S == orig[..|S|] && NUL !in S && field <= p < |S|
    requires FlagState(orig, S, buf, field, flag, p)
    ensures StoredElem(buf[p := NUL], HoleElem(field, flag), Hole(MakeField(S[field..p])), p + 1)
  {
    var buf', body := buf[p := NUL], S[field..p];
    FieldBytes(orig, S, buf, field, flag, p);
    match flag
    case None =>
      FindIs(body, 0, '.', |body|);
      SegmentStored(S, buf', field, p);
    case Some(f) =>
      var dot := f - 1 - field;
      assert body[..dot] == S[field..f - 1] && body[dot + 1..] == S[f..p];
      FindIs(body, 0, '.', dot);
      SegmentStored(S, buf', field, f - 1);
      SegmentStored(S, buf', f, p);
      StringKept(buf', buf', field, S[field..f - 1], f, p + 1);
  }

  lemma FieldBytes(orig: seq<char>, S: string, buf: seq<char>, field: nat, flag: Option<nat>, p: nat)
    requires |S| < |orig| == |buf| && S == orig[..|S|] && field <= p < |S|
    requires FlagState(orig, S, buf, field, flag, p)
    ensures forall i :: field <= i < |buf| && (flag.Some? ==> i != flag.value - 1) ==> buf[i] == orig[i]
    ensures forall i :: field <= i < p ==> S[i] == orig[i]
    ensures flag.Some? ==> buf[flag.value - 1] == NUL
  {
    assert forall i :: field <= i < |buf| ==> buf[i] == buf[field..][i - field];
    assert forall i :: field <= i < |buf| ==> orig[i] == orig[field..][i - field];
  }

  lemma ParseAt(S: string, seg: nat, field: nat, p: nat)
    requires seg < field <= p < |S| && S[field - 1] == '{' && S[p] == '}'
    requires '{' !in S[seg..field - 1] && '}' !in S[field..p]
    ensures Pieces(Parse(S[seg..]))
         == [Text(S[seg..field - 1]), Hole(MakeField(S[field..p]))] + Pieces(Parse(S[p + 1..]))
  {
    var text, body, after := S[seg..field - 1], S[field..p], S[p + 1..];
    assert S[seg..] == text + ("{" + body + "}") + after;
    ParseJoined(text, body, after);
  }

  lemma ParseJoined(text: string, body: string, after: string)
    requires '{' !in text && '}' !in body
    ensures Pieces(Parse(text + ("{" + body + "}") + after))
         == [Text(text), Hole(MakeField(body))] + Pieces(Parse(after))
  {
    hide Divide, MakeField;
    DivideAt(text, body, after);
  }

  lemma StoredPush(buf: seq<char>, elems: seq<Elem>, ps: seq<Piece>, e: Elem, p: Piece, limit: nat)
    requires StoredAll(buf, elems, ps, limit) && StoredElem(buf, e, p, limit)
    ensures StoredAll(buf, elems + [e], ps + [p], limit)
  {}

  /** What follows the scan position is as it was. */
  lemma RestUntouched(orig: seq<char>, S: string, buf: seq<char>, field: nat, flag: Option<nat>, p: nat)
    requires |S| < |orig| == |buf| && field <= p < |S| && FlagState(orig, S, buf, field, flag, p)
    ensures buf[p := NUL][p + 1..] == orig[p + 1..]
  {
    assert forall i :: p < i < |buf| ==> buf[i] == buf[field..][i - field];
    assert forall i :: p < i < |buf| ==> orig[i] == orig[field..][i - field];
  }

  lemma ScannedField(orig: seq<char>, S: string, done: seq<Piece>, seg: nat, field: nat, p: nat)
    requires Scanned(orig, S, done, seg)
    requires seg < field <= p < |S| && S[field - 1] == '{' && S[p] == '}'
    requires '{' !in S[seg..field - 1] && '}' !in S[field..p]
    ensures Scanned(orig, S, done + [Text(S[seg..field - 1])] + [Hole(MakeField(S[field..p]))], p + 1)
  {
    var text, hole := Text(S[seg..field - 1]), Hole(MakeField(S[field..p]));
    var rest := Pieces(Parse(S[p + 1..]));
    ParseAt(S, seg, field, p);
    assert done + ([text, hole] + rest) == (done + [text] + [hole]) + rest;
  }

  lemma CloseBrace(orig: seq<char>, S: string, buf: seq<char>, elems: seq<Elem>, done: seq<Piece>,
                   seg: nat, field: nat, flag: Option<nat>, p: nat)
    requires InField(orig, S, buf, elems, done, seg, field, flag, p) && p < |S| && S[p] == '}'
    ensures seg < field <= p
    ensures InText(orig, S, buf[p := NUL], elems + [HoleElem(field, flag)] + [StrElem(p + 1, 0)],
                   done + [Text(S[seg..field - 1])] + [Hole(MakeField(S[field..p]))], p + 1, p + 1)
  {
    hide Parse, Pieces, MakeField, StoredAll, StoredElem;
    var ps, hole := done + [Text(S[seg..field - 1])], Hole(MakeField(S[field..p]));
    var buf', e := buf[p := NUL], HoleElem(field, flag);
    StoredKept(buf, buf', elems, ps, field, p + 1);
    ClosedField(orig, S, buf, field, flag, p);
    StoredPush(buf', elems, ps, e, hole, p + 1);
    ScannedField(orig, S, done, seg, field, p);
    RestUntouched(orig, S, buf, field, flag, p);
    StoredSize(buf, elems, ps, field);
    assert (elems + [e] + [StrElem(p + 1, 0)])[..|elems| + 1] == elems + [e];
  }

  lemma StoredSize(buf: seq<char>, elems: seq<Elem>, ps: seq<Piece>, limit: nat)
    requires StoredAll(buf, elems, ps, limit)
    ensures |elems| == |ps|
  {}

  /** At the terminator, outside braces: the last text ends there. */
  lemma EndInText(orig: seq<char>, S: string, buf: seq<char>, elems: seq<Elem>, done: seq<Piece>, seg: nat)
    requires InText(orig, S, buf, elems, done, seg, |S|)
    ensures StoredAll(buf, elems, Pieces(Parse(S)), |S| + 1)
  {
    hide StoredAll, Parse, Pieces;
    LastText(orig, S, buf, seg);
    StoredKept(buf, buf, elems[..|done|], done, seg, |S| + 1);
    StoredPush(buf, elems[..|done|], done, elems[|done|], Text(S[seg..]), |S| + 1);
    PlainPieces(S[seg..]);
    assert elems == elems[..|done|] + [elems[|done|]];
  }

  lemma PlainPieces(s: string)
    requires '{' !in s
    ensures Pieces(Parse(s)) == [Text(s)]
  {
    DividePlain(s);
  }

  lemma LastText(orig: seq<char>, S: string, buf: seq<char>, seg: nat)
    requires seg <= |S| < |orig| == |buf| && S == orig[..|S|] && orig[|S|] == NUL && NUL !in S
    requires buf[seg..] == orig[seg..]
    ensures Stored(buf, seg, S[seg..], |S| + 1)
  {
    assert forall i :: seg <= i < |buf| ==> buf[i] == buf[seg..][i - seg];
    assert forall i :: seg <= i < |buf| ==> orig[i] == orig[seg..][i - seg];
    SegmentStored(S, buf, seg, |S|);
    assert S[seg..] == S[seg..|S|];
  }

  lemma DivideUnclosed(s: string, open: nat)
    requires open < |s| && s[open] == '{' && '{' !in s[..open] && '}' !in s[open + 1..]
    ensures Divide(s) == Unclosed(open)
  {
    assert forall i :: open + 1 <= i < |s| ==> s[i] == s[open + 1..][i - open - 1];
    FindIs(s, 0, '{', open);
    FindIs(s, open + 1, '}', |s|);
  }

  lemma UnclosedPieces(s: string, open: nat)
    requires open < |s| && s[open] == '{' && '{' !in s[..open] && '}' !in s[open + 1..]
    ensures Pieces(Parse(s)) == [Text(s[..open])]
  {
    DivideUnclosed(s, open);
  }

  /** At the terminator, inside braces that were never closed: their text is dropped. */
  lemma EndInField(orig: seq<char>, S: string, buf: seq<char>, elems: seq<Elem>, done: seq<Piece>,
                   seg: nat, field: nat, flag: Option<nat>)
    requires InField(orig, S, buf, elems, done, seg, field, flag, |S|)
    ensures StoredAll(buf, elems, Pieces(Parse(S)), |S| + 1)
  {
    hide StoredAll, Parse, Pieces, FlagState;
    var last, open := S[seg..], field - 1 - seg;
    assert last[..open] == S[seg..field - 1] && last[open + 1..] == S[field..|S|];
    UnclosedPieces(last, open);
    StoredKept(buf, buf, elems, done + [Text(S[seg..field - 1])], field, |S| + 1);
  }

  // ---- The compiler -----------------------------------------------------------------------

  class Fmt {
    var elems: seq<Elem>

    constructor ()
      ensures elems == []
    {
      elems := [];
    }

    method Add(elem: Elem)
      modifies this
      ensures elems == old(elems) + [elem]
    {
      elems := elems + [elem];
    }
  }

  /** The character under the scan is the original one. */
  lemma UnderScan(orig: seq<char>, S: string, buf: seq<char>, elems: seq<Elem>, done: seq<Piece>,
                  seg: nat, field: nat, flag: Option<nat>, p: nat, placeholder: bool)
    requires if placeholder then InField(orig, S, buf, elems, done, seg, field, flag, p)
             else InText(orig, S, buf, elems, done, seg, p)
    ensures p <= |S| < |buf| && buf[p] == orig[p] && (buf[p] == NUL <==> p == |S|)
  {
    var from := if placeholder then field else seg;
    assert buf[p] == buf[from..][p - from] && orig[p] == orig[from..][p - from];
    assert p < |S| ==> S[p] == orig[p];
  }

  /** Compiles the template in `str` and overwrites its delimiters with terminators. The elements
      of the result stand for the pieces of the original text, in order, and every segment is
      still found in the overwritten buffer. */
  method Compile(str: array<char>) returns (res: Fmt)
    requires NUL in str[..]
    modifies str
    ensures fresh(res)
    ensures var S := old(str[..Length(str[..], NUL)]);
      && StoredAll(str[..], res.elems, Pieces(Parse(S)), |S| + 1)
      && LengthsSet(res.elems, Pieces(Parse(S)))
  {
    hide StoredAll, LengthsSet, Parse, Pieces;
    ghost var orig := str[..];
    ghost var S := orig[..Length(orig, NUL)];
    res := Scan(str, orig, S);
    MeasureTexts(str, res, Pieces(Parse(S)), |S| + 1);
  }

  /** The pass that sets the length of every text segment. */
  method MeasureTexts(str: array<char>, res: Fmt, ghost ps: seq<Piece>, ghost limit: nat)
    requires StoredAll(str[..], res.elems, ps, limit)
    modifies res
    ensures StoredAll(str[..], res.elems, ps, limit) && LengthsSet(res.elems, ps)
  {
    hide StoredAll;
    ghost var n := |ps|;
    StoredSize(str[..], res.elems, ps, limit);
    for i := 0 to |res.elems|
      invariant |res.elems| == n && StoredAll(str[..], res.elems, ps, limit)
      invariant forall k :: 0 <= k < i && ps[k].Text? ==> res.elems[k].StrElem? && res.elems[k].len == |ps[k].s|
    {
      StoredAt(str[..], res.elems, ps, i, limit);
      if res.elems[i].StrElem? {
        var start := res.elems[i].start;
        res.elems := res.elems[i := StrElem(start, Length(str[..][start..], NUL))];
      }
    }
  }

  /** Segment `i`: what its length is, and that recording the length changes nothing else. */
  lemma StoredAt(buf: seq<char>, elems: seq<Elem>, ps: seq<Piece>, i: nat, limit: nat)
    requires StoredAll(buf, elems, ps, limit) && i < |ps|
    ensures |elems| == |ps| && (elems[i].StrElem? <==> ps[i].Text?)
    ensures ps[i].Text? ==>
      && elems[i].start <= |buf| && NUL in buf[elems[i].start..]
      && Length(buf[elems[i].start..], NUL) == |ps[i].s|
      && forall len :: StoredAll(buf, elems[i := StrElem(elems[i].start, len)], ps, limit)
  {
    assert StoredElem(buf, elems[i], ps[i], limit);
    if ps[i].Text? {
      StoredLength(buf, elems[i].start, ps[i].s, limit);
    }
  }

  predicate LengthsSet(elems: seq<Elem>, ps: seq<Piece>) {
    && |elems| == |ps|
    && forall i :: 0 <= i < |ps| && ps[i].Text? ==> elems[i].StrElem? && elems[i].len == |ps[i].s|
  }

  /** The scan over the buffer. */
  method Scan(str: array<char>, ghost orig: seq<char>, ghost S: string) returns (res: Fmt)
    requires orig == str[..] && |S| < |orig| && S == orig[..|S|] && orig[|S|] == NUL && NUL !in S
    modifies str
    ensures fresh(res) && StoredAll(str[..], res.elems, Pieces(Parse(S)), |S| + 1)
  {
    hide InText, InField, StoredAll, Parse, Pieces;
    res := new Fmt();
    res.Add(StrElem(0, 0));
    ghost var done: seq<Piece>, seg: nat := [], 0;
    StartInText(orig, S);
    var p: nat, placeholderStart: nat, flagsStart: Option<nat> := 0, 0, None;
    var placeholder, placeholderFlags := false, false;
    UnderScan(orig, S, str[..], res.elems, done, seg, placeholderStart, flagsStart, p, placeholder);
    while str[p] != NUL
      invariant p <= |S| && str.Length == |orig|
      invariant placeholderFlags == flagsStart.Some?
      invariant if placeholder
        then InField(orig, S, str[..], res.elems, done, seg, placeholderStart, flagsStart, p)
        else flagsStart.None? && InText(orig, S, str[..], res.elems, done, seg, p)
      invariant str[p] == orig[p] && (str[p] == NUL <==> p == |S|)
      decreases |S| - p
    {
      var c := str[p];
      ghost var buf := str[..];
      assert c == S[p];
      if placeholder {
        if c == '.' && !placeholderFlags {
          FirstDot(orig, S, buf, res.elems, done, seg, placeholderStart, p);
          placeholderFlags := true;
          str[p] := NUL;
          flagsStart := Some(p + 1);
          assert str[..] == buf[p := NUL];
        } else if c != '}' {
          FieldChar(orig, S, buf, res.elems, done, seg, placeholderStart, flagsStart, p);
        }
        if c == '}' {
          CloseBrace(orig, S, buf, res.elems, done, seg, placeholderStart, flagsStart, p);
          str[p] := NUL;
          assert str[..] == buf[p := NUL];
          res.Add(HoleElem(placeholderStart, flagsStart));
          done := done + [Text(S[seg..placeholderStart - 1])] + [Hole(MakeField(S[placeholderStart..p]))];
          seg := p + 1;
          placeholder := false;
          placeholderFlags := false;
          flagsStart := None;
          res.Add(StrElem(p + 1, 0));
        }
      } else if c == '{' {
        OpenBrace(orig, S, buf, res.elems, done, seg, p);
        placeholderStart := p + 1;
        placeholder := true;
        str[p] := NUL;
        assert str[..] == buf[p := NUL];
      } else {
        TextChar(orig, S, buf, res.elems, done, seg, p);
      }
      p := p + 1;
      UnderScan(orig, S, str[..], res.elems, done, seg, placeholderStart, flagsStart, p, placeholder);
    }
    if placeholder {
      EndInField(orig, S, str[..], res.elems, done, seg, placeholderStart, flagsStart);
    } else {
      EndInText(orig, S, str[..], res.elems, done, seg);
    }
  }

  lemma StartInText(orig: seq<char>, S: string)
    requires |S| < |orig| && S == orig[..|S|] && orig[|S|] == NUL && NUL !in S
    ensures InText(orig, S, orig, [StrElem(0, 0)], [], 0, 0)
  {
    assert S[0..] == S;
  }

  // ---- The renderer -----------------------------------------------------------------------

  /** What a lookup returns: nothing, the buffer that all number lookups share, or a string of
      the caller's. */
  datatype CString = Null | Shared | Client(s: string)

  const SHARED_SIZE: nat := 200

  /** What the returned pointer shows when it is read at once. */
  function Read(r: CString, shared: seq<char>): Option<string>
    requires r.Shared? ==> NUL in shared
  {
    match r
    case Null => None
    case Shared => Some(shared[..Length(shared, NUL)])
    case Client(s) => Some(s)
  }

  /** The pieces of a field, read back from the buffer as C strings. */
  function FieldAt(buf: seq<char>, e: Elem): Field
    requires e.HoleElem? && e.start <= |buf| && NUL in buf[e.start..]
    requires e.flag.Some? ==> e.flag.value <= |buf| && NUL in buf[e.flag.value..]
  {
    Field(StringAt(buf, e.start), if e.flag.Some? then Some(StringAt(buf, e.flag.value)) else None)
  }

  function StringAt(buf: seq<char>, start: nat): string
    requires start <= |buf| && NUL in buf[start..]
  {
    buf[start..start + Length(buf[start..], NUL)]
  }

  lemma FieldStored(buf: seq<char>, e: Elem, f: Field, limit: nat)
    requires StoredElem(buf, e, Hole(f), limit)
    ensures e.start <= |buf| && NUL in buf[e.start..]
    ensures e.flag.Some? ==> e.flag.value <= |buf| && NUL in buf[e.flag.value..]
    ensures FieldAt(buf, e) == f
  {
    hide Length;
    StoredLength(buf, e.start, f.key, limit);
    if e.flag.Some? {
      StoredLength(buf, e.flag.value, f.flag.value, limit);
    }
  }

  /** The lookup in a list of placeholders. A number is written into the shared buffer. */
  method PlaceholderFind(str: array<char>, elem: Elem, list: seq<Placeholder>, shared: array<char>)
    returns (r: CString)
    requires elem.HoleElem? && elem.start <= str.Length && NUL in str[elem.start..]
    requires elem.flag.Some? ==> elem.flag.value <= str.Length && NUL in str[elem.flag.value..]
    requires shared.Length == SHARED_SIZE && shared != str && LongsFit(list)
    modifies shared
    ensures r.Shared? ==> NUL in shared[..]
    ensures Read(r, shared[..]) == Resolve(list, old(FieldAt(str[..], elem)))
  {
    hide Encode, Base;
    SliceOfAll(str, elem.start);
    if elem.flag.Some? {
      SliceOfAll(str, elem.flag.value);
    }
    var field := FieldAt(str[..], elem);
    for i := 0 to |list|
      invariant shared[..] == old(shared[..])
      invariant Resolve(list, field) == Resolve(list[i..], field)
    {
      var p := list[i];
      ResolveStep(list, i, field);
      if p.key != field.key {
        continue;
      }
      match p.value
      case Long(l) =>
        WriteNumber(l, field.flag, shared);
        return Shared;
      case Str(s) =>
        return if s.Some? then Client(s.value) else Null;
      case Unknown =>
        return Null;
    }
    return Null;
  }

  lemma SliceOfAll(str: array<char>, start: nat)
    requires start <= str.Length
    ensures str[..][start..] == str[start..]
  {}

  lemma ResolveStep(list: seq<Placeholder>, i: nat, f: Field)
    requires i < |list|
    ensures Resolve(list[i..], f) ==
      if list[i].key != f.key then Resolve(list[i + 1..], f)
      else match list[i].value
           case Long(l) => Some(Encode(l, Base(f.flag)))
           case Str(s) => s
           case Unknown => None
  {
    assert list[i..][1..] == list[i + 1..];
  }

  /** Writes a number in the radix its flag asks for. */
  method WriteNumber(l: int, flag: Option<string>, shared: array<char>)
    requires shared.Length == SHARED_SIZE && InLongLong(l) && l != LL_MIN
    modifies shared
    ensures NUL in shared[..] && shared[..Length(shared[..], NUL)] == Encode(l, Base(flag))
    ensures Writes(shared[..Length(shared[..], NUL)], l,
                   if flag.None? then 10
                   else if 'h' in flag.value then 16
                   else if 'b' in flag.value then 2
                   else if 'o' in flag.value then 8 else 10)
  {
    hide Encode, Writes;
    var base := 10;
    if flag.Some? {
      if 'h' in flag.value {
        base := 16;
      } else if 'b' in flag.value {
        base := 2;
      } else if 'o' in flag.value {
        base := 8;
      }
    }
    var end := LlToAscii(l, shared, 0, base);
    EncodeHasNoNul(l, base);
    EncodeWrites(l, base);
    TerminatorFirst(Encode(l, base), NUL, shared[end + 1..]);
    assert shared[..] == shared[0..end] + [shared[end]] + shared[end + 1..];
  }

  lemma EncodeHasNoNul(v: int, radix: nat)
    requires IsRadix(radix)
    ensures NUL !in Encode(v, radix)
  {}

  /** Renders a compiled template. Every looked-up string is copied before the next lookup, so
      it does not matter that number lookups overwrite one shared buffer. */
  method Format(fmt: seq<Elem>, str: array<char>, list: seq<Placeholder>, shared: array<char>,
                ghost ps: seq<Piece>, ghost limit: nat) returns (res: Option<string>)
    requires StoredAll(str[..], fmt, ps, limit) && LengthsSet(fmt, ps)
    requires shared.Length == SHARED_SIZE && shared != str && LongsFit(list)
    modifies shared
    ensures res == Render(ps, list)
  {
    var out := "";
    NothingPrefixed(ps, list);
    for i := 0 to |fmt|
      invariant Render(ps, list) == Prefixed(out, Render(ps[i..], list))
    {
      ghost var p := ps[i];
      assert StoredElem(str[..], fmt[i], p, limit);
      RenderFirst(out, ps, i, list);
      if fmt[i].StrElem? {
        out := out + str[fmt[i].start..fmt[i].start + fmt[i].len];
      } else {
        FieldStored(str[..], fmt[i], p.f, limit);
        assert str[..][fmt[i].start..] == str[fmt[i].start..];
        assert fmt[i].flag.Some? ==> str[..][fmt[i].flag.value..] == str[fmt[i].flag.value..];
        var add := PlaceholderFind(str, fmt[i], list, shared);
        if add.Null? {
          return None;
        }
        out := out + Read(add, shared[..]).value;
      }
    }
    assert out + "" == out;
    return Some(out);
  }

  lemma NothingPrefixed(ps: seq<Piece>, list: seq<Placeholder>)
    ensures Render(ps, list) == Prefixed("", Render(ps[0..], list))
  {
    assert ps[0..] == ps;
    var all := Render(ps, list);
    assert all.Some? ==> "" + all.value == all.value;
  }

  function Prefixed(out: string, rest: Option<string>): Option<string> {
    if rest.None? then None else Some(out + rest.value)
  }

  lemma RenderFirst(out: string, ps: seq<Piece>, i: nat, list: seq<Placeholder>)
    requires i < |ps|
    ensures var first := Shown(ps[i], list);
      Prefixed(out, Render(ps[i..], list))
      == if first.None? then None else Prefixed(out + first.value, Render(ps[i + 1..], list))
  {
    assert ps[i..][1..] == ps[i + 1..];
    var first, rest := Shown(ps[i], list), Render(ps[i + 1..], list);
    if first.Some? && rest.Some? {
      assert out + (first.value + rest.value) == out + first.value + rest.value;
    }
  }

  /** Compiling a template and rendering it is substituting in its original text. */
  method CompileAndFormat(str: array<char>, list: seq<Placeholder>, shared: array<char>)
    returns (res: Option<string>)
    requires NUL in str[..]
    requires shared.Length == SHARED_SIZE && shared != str && LongsFit(list)
    modifies str, shared
    ensures res == Substitute(old(str[..Length(str[..], NUL)]), list)
  {
    hide StoredAll, LengthsSet, Parse, Pieces, Render, Substitute;
    ghost var S := str[..Length(str[..], NUL)];
    var fmt := Compile(str);
    res := Format(fmt.elems, str, list, shared, Pieces(Parse(S)), |S| + 1);
    RenderIsSubstitute(S, list);
  }
}
