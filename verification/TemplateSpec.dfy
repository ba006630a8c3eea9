/** What a template of `minifmt.c` means: literal text with `{key}` and `{key.flag}` fields. */
module TemplateSpec {
  import opened CStrings
  import opened NumberText
  import opened Numerals
  import opened Options

  datatype Field = Field(key: string, flag: Option<string>)

  /** Text, field, text, and so on, ending with text. */
  datatype Template = Last(text: string) | Then(text: string, field: Field, rest: Template)

  /** A field ends at its first dot; what follows is its flag. */
  function MakeField(body: string): Field {
    var dot := Find(body, 0, '.');
    if dot == |body| then Field(body, None) else Field(body[..dot], Some(body[dot + 1..]))
  }

  /** Where a template is divided: nowhere, at an opening brace that is never closed, or at its
      first field. */
  datatype Division = Plain | Unclosed(open: nat) | Braces(open: nat, close: nat)

  function Divide(s: string): (d: Division)
    ensures d.Braces? ==> d.open < d.close < |s|
    ensures d.Unclosed? ==> d.open < |s|
  {
    var open := Find(s, 0, '{');
    if open == |s| then Plain
    else
      var close := Find(s, open + 1, '}');
      if close == |s| then Unclosed(open) else Braces(open, close)
  }

  /** Reading a template. An opening brace that is never closed ends it. */
  function Parse(s: string): Template
    decreases |s|
  {
    match Divide(s)
    case Plain => Last(s)
    case Unclosed(open) => Last(s[..open])
    case Braces(open, close) => Then(s[..open], MakeField(s[open + 1..close]), Parse(s[close + 1..]))
  }

  function ShowField(f: Field): string {
    "{" + f.key + (if f.flag.Some? then "." + f.flag.value else "") + "}"
  }

  function Unparse(t: Template): string {
    match t
    case Last(text) => text
    case Then(text, field, rest) => text + ShowField(field) + Unparse(rest)
  }

  /** Text holds no opening brace, keys no dot and no closing brace, flags no closing brace. */
  predicate Canonical(t: Template) {
    && '{' !in t.text
    && (t.Then? ==> CanonicalField(t.field) && Canonical(t.rest))
  }

  predicate CanonicalField(f: Field) {
    && '}' !in f.key && '.' !in f.key
    && (f.flag.Some? ==> '}' !in f.flag.value)
  }

  lemma MakeFieldCanonical(body: string)
    requires '}' !in body
    ensures CanonicalField(MakeField(body)) && ShowField(MakeField(body)) == "{" + body + "}"
  {
    var dot := Find(body, 0, '.');
    if dot < |body| {
      assert body == body[..dot] + ("." + body[dot + 1..]);
    }
  }

  lemma DivideFacts(s: string)
    ensures match Divide(s)
      case Plain => '{' !in s
      case Unclosed(open) => '{' !in s[..open] && s[open] == '{' && '}' !in s[open..]
      case Braces(open, close) =>
        && '{' !in s[..open] && '}' !in s[open + 1..close]
        && s[..close + 1] == s[..open] + ("{" + s[open + 1..close] + "}")
  {}

  /** What reading a template produces, put together again, is the template up to an opening
      brace that is never closed. */
  lemma {:induction false} ParseReassembles(s: string) returns (kept: nat)
    ensures kept <= |s| && Unparse(Parse(s)) == s[..kept] && Canonical(Parse(s))
    ensures kept == |s| || (s[kept] == '{' && '}' !in s[kept..])
    decreases |s|
  {
    hide Divide, MakeField, CanonicalField, ShowField;
    DivideFacts(s);
    match Divide(s)
    case Plain =>
      kept := |s|;
    case Unclosed(open) =>
      kept := open;
    case Braces(open, close) =>
      var tail := s[close + 1..];
      var k := ParseReassembles(tail);
      kept := close + 1 + k;
      MakeFieldCanonical(s[open + 1..close]);
      assert s[..kept] == s[..close + 1] + tail[..k];
      assert s[kept..] == tail[k..];
  }

  lemma FieldText(f: Field) returns (body: string)
    requires CanonicalField(f)
    ensures ShowField(f) == "{" + body + "}" && '}' !in body && MakeField(body) == f
  {
    body := f.key + if f.flag.Some? then "." + f.flag.value else "";
    FindIs(body, 0, '.', |f.key|);
    assert body[..|f.key|] == f.key;
    assert f.flag.Some? ==> body[|f.key| + 1..] == f.flag.value;
  }

  lemma DivideAt(text: string, body: string, after: string)
    requires '{' !in text && '}' !in body
    ensures var s, close := text + ("{" + body + "}") + after, |text| + 1 + |body|;
      && Divide(s) == Braces(|text|, close)
      && s[..|text|] == text && s[|text| + 1..close] == body && s[close + 1..] == after
  {
    var s, close := text + ("{" + body + "}") + after, |text| + 1 + |body|;
    hide Find;
    FindIs(s, 0, '{', |text|);
    FindIs(s, |text| + 1, '}', close);
    assert s[..|text|] == text;
    assert s[|text| + 1..close] == body;
    assert s[close + 1..] == after;
  }

  /** A template of canonical pieces is read back exactly: no other pieces have the same text. */
  lemma {:induction false} UnparseParses(t: Template)
    requires Canonical(t)
    ensures Parse(Unparse(t)) == t
  {
    hide Divide, Find, MakeField, ShowField, CanonicalField;
    match t
    case Last(text) =>
      DividePlain(text);
    case Then(text, field, rest) =>
      var body := FieldText(field);
      DivideAt(text, body, Unparse(rest));
      UnparseParses(rest);
  }

  lemma DividePlain(s: string)
    requires '{' !in s
    ensures Divide(s) == Plain
  {
    FindIs(s, 0, '{', |s|);
  }

  // ---- Substitution -----------------------------------------------------------------------

  /** A number, a string that may be the null pointer, or a type the lookup does not know. */
  datatype Value = Long(l: int) | Str(s: Option<string>) | Unknown

  datatype Placeholder = Placeholder(key: string, value: Value)

  predicate LongsFit(list: seq<Placeholder>) {
    forall p :: p in list && p.value.Long? ==> InLongLong(p.value.l) && p.value.l != LL_MIN
  }

  /** The radix a flag asks for. */
  function Base(flag: Option<string>): (radix: nat)
    ensures IsRadix(radix)
  {
    if flag.None? then 10
    else if 'h' in flag.value then 16
    else if 'b' in flag.value then 2
    else if 'o' in flag.value then 8
    else 10
  }

  /** The text of the first placeholder with the field's key. */
  function Resolve(list: seq<Placeholder>, f: Field): Option<string> {
    if list == [] then None
    else if list[0].key != f.key then Resolve(list[1..], f)
    else
      match list[0].value
      case Long(l) => Some(Encode(l, Base(f.flag)))
      case Str(s) => s
      case Unknown => None
  }

  /** One pass over the template text, replacing every field as it is met. */
  function Substitute(s: string, list: seq<Placeholder>): Option<string>
    decreases |s|
  {
    match Divide(s)
    case Plain => Some(s)
    case Unclosed(open) => Some(s[..open])
    case Braces(open, close) =>
      var value := Resolve(list, MakeField(s[open + 1..close]));
      var after := Substitute(s[close + 1..], list);
      if value.None? || after.None? then None else Some(s[..open] + value.value + after.value)
  }

  /** What a compiled template is: its pieces in order. */
  datatype Piece = Text(s: string) | Hole(f: Field)

  function Pieces(t: Template): (ps: seq<Piece>) {
    match t
    case Last(text) => [Text(text)]
    case Then(text, field, rest) => [Text(text), Hole(field)] + Pieces(rest)
  }

  /** What one piece contributes. */
  function Shown(p: Piece, list: seq<Placeholder>): Option<string> {
    match p
    case Text(s) => Some(s)
    case Hole(f) => Resolve(list, f)
  }

  /** Rendering the pieces from left to right. */
  function Render(ps: seq<Piece>, list: seq<Placeholder>): Option<string> {
    if ps == [] then Some("")
    else
      var first, after := Shown(ps[0], list), Render(ps[1..], list);
      if first.None? || after.None? then None else Some(first.value + after.value)
  }

  /** Rendering the pieces of a template is substituting in its text. */
  lemma {:induction false} RenderIsSubstitute(s: string, list: seq<Placeholder>)
    ensures Render(Pieces(Parse(s)), list) == Substitute(s, list)
    decreases |s|
  {
    hide Divide, MakeField, Resolve;
    match Divide(s)
    case Plain => RenderText(s, list);
    case Unclosed(open) => RenderText(s[..open], list);
    case Braces(open, close) =>
      RenderIsSubstitute(s[close + 1..], list);
      RenderPair(s[..open], MakeField(s[open + 1..close]), Pieces(Parse(s[close + 1..])), list);
  }

  lemma RenderText(text: string, list: seq<Placeholder>)
    ensures Render([Text(text)], list) == Some(text)
  {
    assert [Text(text)][1..] == [];
    assert text + "" == text;
  }

  lemma RenderPair(text: string, f: Field, ps: seq<Piece>, list: seq<Placeholder>)
    ensures var value, after := Resolve(list, f), Render(ps, list);
      Render([Text(text), Hole(f)] + ps, list)
      == if value.None? || after.None? then None else Some(text + value.value + after.value)
  {
    hide Resolve;
    var all := [Text(text), Hole(f)] + ps;
    assert all[1..] == [Hole(f)] + ps && all[1..][1..] == ps;
    var value, after := Resolve(list, f), Render(ps, list);
    if value.Some? && after.Some? {
      assert text + (value.value + after.value) == text + value.value + after.value;
    }
  }

  /** Substitution fails exactly when some field has no placeholder. */
  lemma {:induction false} SubstituteFails(s: string, list: seq<Placeholder>)
    ensures Substitute(s, list).None? <==>
      exists f :: Hole(f) in Pieces(Parse(s)) && Resolve(list, f).None?
    decreases |s|
  {
    hide Divide, MakeField, Resolve;
    match Divide(s)
    case Plain =>
    case Unclosed(open) =>
    case Braces(open, close) =>
      SubstituteFails(s[close + 1..], list);
      var f, ps := MakeField(s[open + 1..close]), Pieces(Parse(s[close + 1..]));
      assert Pieces(Parse(s)) == [Text(s[..open]), Hole(f)] + ps;
      assert forall g :: Hole(g) in [Text(s[..open]), Hole(f)] + ps <==> g == f || Hole(g) in ps;
  }

  /** Placeholder `i` is the first one with the key. */
  predicate IsFirst(list: seq<Placeholder>, key: string, i: nat) {
    i < |list| && list[i].key == key && forall j :: 0 <= j < i ==> list[j].key != key
  }

  predicate HasText(v: Value) { v.Long? || (v.Str? && v.s.Some?) }

  lemma {:induction false} ResolveFirst(list: seq<Placeholder>, f: Field) returns (i: nat)
    ensures i <= |list| && (i < |list| ==> IsFirst(list, f.key, i))
    ensures i == |list| ==> forall p :: p in list ==> p.key != f.key
    ensures Resolve(list, f).Some? <==> i < |list| && HasText(list[i].value)
  {
    if list == [] {
      i := 0;
    } else if list[0].key == f.key {
      i := 0;
    } else {
      i := ResolveFirst(list[1..], f);
      assert list == [list[0]] + list[1..];
      i := i + 1;
      assert forall j :: 1 <= j < i ==> list[j] == list[1..][j - 1];
    }
  }

  /** A field has no text exactly when no placeholder has its key, or the first one that has it is
      a null string or of an unknown type. */
  lemma ResolveFails(list: seq<Placeholder>, f: Field)
    ensures Resolve(list, f).None? <==>
      forall i: nat :: IsFirst(list, f.key, i) ==> !HasText(list[i].value)
  {
    var k := ResolveFirst(list, f);
    forall i: nat | IsFirst(list, f.key, i) ensures i == k {
      assert list[i] in list;
    }
  }

  /** What stands for a field: a string is itself; a number is written in radix 16 for the flag
      `h`, otherwise 2 for `b`, otherwise 8 for `o`, and in radix 10 without any of them. */
  lemma {:induction false} ResolveText(list: seq<Placeholder>, f: Field, i: nat)
    requires IsFirst(list, f.key, i)
    ensures list[i].value.Str? ==> Resolve(list, f) == list[i].value.s
    ensures list[i].value.Unknown? ==> Resolve(list, f) == None
    ensures list[i].value.Long? && InLongLong(list[i].value.l) && list[i].value.l != LL_MIN ==>
              && Resolve(list, f).Some?
              && Writes(Resolve(list, f).value, list[i].value.l,
                        if f.flag.None? then 10
                        else if 'h' in f.flag.value then 16
                        else if 'b' in f.flag.value then 2
                        else if 'o' in f.flag.value then 8 else 10)
    decreases i
  {
    hide Writes;
    if i == 0 {
      if list[0].value.Long? && InLongLong(list[0].value.l) && list[0].value.l != LL_MIN {
        EncodeWrites(list[0].value.l, Base(f.flag));
      }
    } else {
      assert list[0].key != f.key;
      ResolveText(list[1..], f, i - 1);
    }
  }

  // What one pass of substitution does, from the front of the text.

  lemma SubstitutePlain(text: string, list: seq<Placeholder>)
    requires '{' !in text
    ensures Substitute(text, list) == Some(text)
  {
    DividePlain(text);
  }

  lemma SubstituteUnclosed(text: string, tail: string, list: seq<Placeholder>)
    requires '{' !in text && '}' !in tail
    ensures Substitute(text + ("{" + tail), list) == Some(text)
  {
    var s := text + ("{" + tail);
    FindIs(s, 0, '{', |text|);
    FindIs(s, |text| + 1, '}', |s|);
    assert s[..|text|] == text;
  }

  /** Text, a field, and whatever follows. */
  lemma SubstituteThen(text: string, f: Field, after: string, list: seq<Placeholder>)
    requires '{' !in text && CanonicalField(f)
    ensures var value, rest := Resolve(list, f), Substitute(after, list);
            Substitute(text + ShowField(f) + after, list)
            == if value.None? || rest.None? then None else Some(text + value.value + rest.value)
  {
    hide Divide, MakeField, ShowField, CanonicalField, Resolve;
    var body := FieldText(f);
    DivideAt(text, body, after);
  }

  /** The result is a text that writes the number, between the two others. */
  ghost predicate Framed(res: Option<string>, before: string, after: string, l: int, radix: nat) {
    exists t :: res == Some(before + t + after) && Writes(t, l, radix)
  }

  /** A template with one field. */
  lemma SubstituteField(text: string, f: Field, after: string, list: seq<Placeholder>, i: nat)
    requires '{' !in text && '{' !in after && CanonicalField(f) && IsFirst(list, f.key, i)
    ensures var res := Substitute(text + ShowField(f) + after, list);
            var v := list[i].value;
            && (v.Str? ==> res == if v.s.None? then None else Some(text + v.s.value + after))
            && (v.Unknown? ==> res == None)
            && (v.Long? && InLongLong(v.l) && v.l != LL_MIN ==>
                  Framed(res, text, after, v.l,
                         if f.flag.None? then 10
                         else if 'h' in f.flag.value then 16
                         else if 'b' in f.flag.value then 2
                         else if 'o' in f.flag.value then 8 else 10))
  {
    hide Writes, Resolve, Substitute;
    ResolveText(list, f, i);
    SubstitutePlain(after, list);
    SubstituteThen(text, f, after, list);
  }
}
