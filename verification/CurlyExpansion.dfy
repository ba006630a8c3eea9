/** Brace expansion of `niglob/niglob.c`: results that are slices of the pattern or strings on the
    heap, and who owns the latter. */
module CurlyExpansion {
  import opened CStrings
  import opened CurlySpec

  const NUL: char := '\0'

  /** A piece of the pattern, or a string on the heap that whoever drops the entry must free. */
  datatype Entry = Slice(from: nat, len: nat) | Owned(id: nat, len: nat)

  /** The strings on the heap, by address. */
  type Live = map<nat, string>

  predicate EntryIs(e: Entry, pattern: string, live: Live, text: string) {
    match e
    case Slice(from, len) => from + len <= |pattern| && text == pattern[from..from + len]
    case Owned(id, len) => id in live && len == |text| && live[id] == text + [NUL]
  }

  ghost predicate Holds(items: seq<Entry>, pattern: string, live: Live, texts: seq<string>) {
    |items| == |texts| && forall k :: 0 <= k < |items| ==> EntryIs(items[k], pattern, live, texts[k])
  }

  // ---- Owned strings ----------------------------------------------------------------------

  function Ids(items: seq<Entry>): set<nat> {
    if items == [] then {} else (if items[0].Owned? then {items[0].id} else {}) + Ids(items[1..])
  }

  predicate Distinct(items: seq<Entry>) {
    items == [] || ((items[0].Owned? ==> items[0].id !in Ids(items[1..])) && Distinct(items[1..]))
  }

  ghost predicate Agrees(live: Live, live': Live) {
    forall id :: id in live ==> id in live' && live'[id] == live[id]
  }

  /** From `live` to `live'`, exactly the strings that `items` owns have come to the heap. */
  ghost predicate Gained(live: Live, next: nat, live': Live, next': nat, items: seq<Entry>) {
    && Agrees(live, live') && live'.Keys == live.Keys + Ids(items)
    && Distinct(items) && (forall id :: id in Ids(items) ==> next <= id < next')
    && (forall id :: id in live ==> id < next) && next <= next'
  }

  lemma {:induction false} IdsAppend(a: seq<Entry>, b: seq<Entry>)
    ensures Ids(a + b) == Ids(a) + Ids(b)
    ensures Distinct(a + b) <==> Distinct(a) && Distinct(b) && Ids(a) !! Ids(b)
    decreases |a|
  {
    if a == [] {
      assert a + b == b;
    } else {
      assert (a + b)[1..] == a[1..] + b;
      IdsAppend(a[1..], b);
    }
  }

  /** The number of strings owned. */
  function OwnedCount(items: seq<Entry>): nat {
    if items == [] then 0 else (if items[0].Owned? then 1 else 0) + OwnedCount(items[1..])
  }

  lemma {:induction false} IdsCount(items: seq<Entry>)
    requires Distinct(items)
    ensures |Ids(items)| == OwnedCount(items)
    decreases |items|
  {
    if items == [] {
    } else {
      IdsCount(items[1..]);
    }
  }

  /** The heap grows by as many strings as the entries own. */
  lemma GainedCount(live: Live, next: nat, live': Live, next': nat, items: seq<Entry>)
    requires Gained(live, next, live', next', items)
    ensures |live'| == |live| + OwnedCount(items)
  {
    IdsCount(items);
    assert live.Keys !! Ids(items);
    assert |live'.Keys| == |live.Keys| + |Ids(items)|;
  }

  lemma HoldsAgree(items: seq<Entry>, pattern: string, live: Live, live': Live, texts: seq<string>)
    requires Holds(items, pattern, live, texts) && Agrees(live, live')
    ensures Holds(items, pattern, live', texts)
  {
    forall k | 0 <= k < |items| ensures EntryIs(items[k], pattern, live', texts[k]) {
      assert EntryIs(items[k], pattern, live, texts[k]);
    }
  }

  lemma HoldsAppend(a: seq<Entry>, b: seq<Entry>, pattern: string, live: Live, s: seq<string>, t: seq<string>)
    requires Holds(a, pattern, live, s) && Holds(b, pattern, live, t)
    ensures Holds(a + b, pattern, live, s + t)
  {}

  /** Two gains in a row, in either order of the entries. */
  lemma GainedJoin(l0: Live, n0: nat, l1: Live, n1: nat, l2: Live, n2: nat, a: seq<Entry>, b: seq<Entry>)
    requires Gained(l0, n0, l1, n1, a) && Gained(l1, n1, l2, n2, b)
    ensures Gained(l0, n0, l2, n2, a + b) && Gained(l0, n0, l2, n2, b + a)
  {
    IdsAppend(a, b);
    IdsAppend(b, a);
  }

  lemma OneOwned(id: nat, len: nat)
    ensures Ids([Owned(id, len)]) == {id} && Distinct([Owned(id, len)])
  {
    assert Ids([]) == {};
    assert [Owned(id, len)][1..] == [];
  }

  /** A new string, owned by one more entry. */
  lemma GainedNew(l0: Live, n0: nat, live: Live, next: nat, items: seq<Entry>, text: string, len: nat)
    requires Gained(l0, n0, live, next, items)
    ensures Gained(l0, n0, live[next := text], next + 1, items + [Owned(next, len)])
    ensures Agrees(live, live[next := text])
  {
    OneOwned(next, len);
    IdsAppend(items, [Owned(next, len)]);
    assert next !in live;
  }

  /** Dropping the first entry: its string, if it owns one, is on the heap and can be freed. */
  lemma GainedDrop(l0: Live, n0: nat, live: Live, next: nat, items: seq<Entry>, pattern: string, texts: seq<string>)
    requires items != [] && Gained(l0, n0, live, next, items) && Holds(items, pattern, live, texts)
    ensures items[0].Owned? ==> items[0].id in live
    ensures var live' := if items[0].Owned? then live - {items[0].id} else live;
            Gained(l0, n0, live', next, items[1..]) && Holds(items[1..], pattern, live', texts[1..])
  {
    var live' := if items[0].Owned? then live - {items[0].id} else live;
    assert Ids(items) == (if items[0].Owned? then {items[0].id} else {}) + Ids(items[1..]);
    forall k | 0 <= k < |items[1..]| ensures EntryIs(items[1..][k], pattern, live', texts[1..][k]) {
      assert EntryIs(items[k + 1], pattern, live, texts[k + 1]);
      OwnedInIds(items[1..], k);
    }
  }

  lemma {:induction false} OwnedInIds(items: seq<Entry>, k: nat)
    requires k < |items|
    ensures items[k].Owned? ==> items[k].id in Ids(items)
    decreases k
  {
    if k == 0 {
    } else {
      OwnedInIds(items[1..], k - 1);
    }
  }

  // ---- The heap and the result lists ------------------------------------------------------

  class Strings {
    var live: Live
    var next: nat

    /** A string of `text` and its terminator. */
    method Malloc(text: string) returns (id: nat)
      modifies this
      ensures id == old(next) && next == old(next) + 1 && live == old(live)[id := text + [NUL]]
    {
      id := next;
      live := live[id := text + [NUL]];
      next := next + 1;
    }

    /** Only a string that is on the heap can be freed. */
    method Free(id: nat)
      requires id in live
      modifies this
      ensures live == old(live) - {id} && next == old(next)
    {
      live := live - {id};
    }
  }

  class Results {
    var items: seq<Entry>

    constructor ()
      ensures items == []
    {
      items := [];
    }
  }

  method TextOf(strings: Strings, pattern: string, e: Entry, ghost text: string) returns (t: string)
    requires EntryIs(e, pattern, strings.live, text)
    ensures t == text
  {
    match e
    case Slice(from, len) => t := pattern[from..from + len];
    case Owned(id, len) => t := strings.live[id][..len];
  }

  /** What one call adds to a list: entries with the given texts, and the strings they own. */
  ghost predicate Added(live: Live, next: nat, items: seq<Entry>, live': Live, next': nat, items': seq<Entry>,
                        pattern: string, texts: seq<string>) {
    && items <= items'
    && Gained(live, next, live', next', items'[|items|..])
    && Holds(items'[|items|..], pattern, live', texts)
  }

  lemma AddedJoin(l0: Live, n0: nat, l1: Live, n1: nat, items: seq<Entry>, l2: Live, n2: nat, items': seq<Entry>,
                  pattern: string, done: seq<string>, texts: seq<string>)
    requires Gained(l0, n0, l1, n1, items) && Holds(items, pattern, l1, done)
    requires Added(l1, n1, items, l2, n2, items', pattern, texts)
    ensures Gained(l0, n0, l2, n2, items') && Holds(items', pattern, l2, done + texts)
  {
    var added := items'[|items|..];
    GainedJoin(l0, n0, l1, n1, l2, n2, items, added);
    HoldsAgree(items, pattern, l1, l2, done);
    HoldsAppend(items, added, pattern, l2, done, texts);
    assert items + added == items';
  }

  ghost predicate Clean(strings: Strings)
    reads strings
  {
    forall id :: id in strings.live ==> id < strings.next
  }

  // ---- Scanning ---------------------------------------------------------------------------

  method FindOpen(pattern: string) returns (open: nat)
    ensures open == Find(pattern, 0, '{')
  {
    open := 0;
    while open < |pattern| && pattern[open] != '{'
      invariant open <= |pattern| && Find(pattern, 0, '{') == Find(pattern, open, '{')
    {
      open := open + 1;
    }
  }

  /** The matching brace of the one at `open`. */
  method FindClose(pattern: string, open: nat) returns (close: nat)
    requires open < |pattern| && pattern[open] == '{'
    ensures close == open + 1 + Close(pattern[open + 1..], 1)
  {
    hide Close;
    CloseAtEnd();
    var nesting := 0;
    close := open;
    while close < |pattern|
      invariant open <= close <= |pattern|
      invariant close == open ==> nesting == 0
      invariant close > open ==> nesting >= 1
      invariant close > open ==> open + 1 + Close(pattern[open + 1..], 1) == close + Close(pattern[close..], nesting)
    {
      if close > open { CloseStep(pattern, close, nesting); }
      var c := pattern[close];
      if c == '{' {
        nesting := nesting + 1;
      } else if c == '}' {
        if nesting == 0 { nesting := 2; }
        nesting := nesting - 1;
        if nesting == 0 { return; }
      }
      close := close + 1;
    }
  }

  lemma CloseAtEnd()
    ensures forall n: nat :: n >= 1 ==> Close([], n) == 0
  {}

  lemma CloseStep(s: string, i: nat, n: nat)
    requires i < |s| && n >= 1
    ensures Nest(n, s[i]) == 0 ==> Close(s[i..], n) == 0
    ensures Nest(n, s[i]) > 0 ==> Close(s[i..], n) == 1 + Close(s[i + 1..], Nest(n, s[i]))
  {
    assert s[i..][1..] == s[i + 1..];
  }

  // ---- Expanding --------------------------------------------------------------------------

  /** One row of the product: `before`, the text of `s`, and each of the rests. */
  method AppendRow(strings: Strings, dest: Results, pattern: string, before: string, s: Entry, rest: seq<Entry>,
                   ghost l0: Live, ghost n0: nat, ghost held: seq<Entry>, ghost texts: seq<string>,
                   ghost text: string, ghost at: nat, ghost r: seq<string>)
    requires Gained(l0, n0, strings.live, strings.next, held) && Holds(held, pattern, strings.live, texts)
    requires |held| > 0 && held[0] == s && texts[0] == text
    requires |texts| == |held| && at + |rest| <= |held| && held[at..at + |rest|] == rest && texts[at..at + |rest|] == r
    modifies strings, dest
    ensures old(dest.items) <= dest.items
    ensures var row := dest.items[|old(dest.items)|..];
            && Gained(l0, n0, strings.live, strings.next, held + row)
            && Holds(held + row, pattern, strings.live, texts + Row(before + text, r))
  {
    hide Gained, Holds, Row;
    var j := 0;
    ghost var start := dest.items;
    ghost var row: seq<Entry> := [];
    RowNone(before + text, r);
    assert held + row == held && texts + [] == texts;
    while j < |rest|
      invariant j <= |rest| && dest.items == start + row
      invariant Gained(l0, n0, strings.live, strings.next, held + row)
      invariant Holds(held + row, pattern, strings.live, texts + Row(before + text, r[..j]))
    {
      RowTexts(strings.live, held, row, pattern, texts, before, text, r, at, j);
      var first := TextOf(strings, pattern, s, text);
      var second := TextOf(strings, pattern, rest[j], r[j]);
      RowStep(l0, n0, strings.live, strings.next, held, row, pattern, texts, before, text, r, j);
      var id := strings.Malloc(before + first + second);
      dest.items := dest.items + [Owned(id, |before + first + second|)];
      row := row + [Owned(id, |before + first + second|)];
      j := j + 1;
    }
    assert r[..j] == r;
    assert dest.items[|start|..] == row;
  }

  lemma RowNone(start: string, r: seq<string>)
    ensures Row(start, r[..0]) == []
  {}

  /** The entries that a row reads are still on the heap. */
  lemma RowTexts(live: Live, held: seq<Entry>, row: seq<Entry>, pattern: string, texts: seq<string>,
                 before: string, text: string, r: seq<string>, at: nat, j: nat)
    requires j < |r| && at + |r| <= |held| == |texts| && texts[at..at + |r|] == r && |held| > 0 && texts[0] == text
    requires Holds(held + row, pattern, live, texts + Row(before + text, r[..j]))
    ensures EntryIs(held[0], pattern, live, text) && EntryIs(held[at..at + |r|][j], pattern, live, r[j])
  {
    assert (held + row)[0] == held[0] && (held + row)[at + j] == held[at..at + |r|][j];
    assert texts[at + j] == r[j];
  }

  /** One more entry of a row. */
  lemma RowStep(l0: Live, n0: nat, live: Live, next: nat, held: seq<Entry>, row: seq<Entry>, pattern: string,
                texts: seq<string>, before: string, text: string, r: seq<string>, j: nat)
    requires j < |r| && Gained(l0, n0, live, next, held + row)
    requires Holds(held + row, pattern, live, texts + Row(before + text, r[..j]))
    ensures var t := before + text + r[j];
            var live' := live[next := t + [NUL]];
            var row' := row + [Owned(next, |t|)];
            && Gained(l0, n0, live', next + 1, held + row')
            && Holds(held + row', pattern, live', texts + Row(before + text, r[..j + 1]))
  {
    var t := before + text + r[j];
    var live' := live[next := t + [NUL]];
    var rowTexts := texts + Row(before + text, r[..j]);
    GainedNew(l0, n0, live, next, held + row, t + [NUL], |t|);
    HoldsAgree(held + row, pattern, live, live', rowTexts);
    HoldsAppend(held + row, [Owned(next, |t|)], pattern, live', rowTexts, [t]);
    assert held + (row + [Owned(next, |t|)]) == held + row + [Owned(next, |t|)];
    assert texts + Row(before + text, r[..j + 1]) == rowTexts + [t];
  }

  /** Drops the entries of `items`, freeing the strings they own; `kept` stays. */
  method Release(strings: Strings, items: seq<Entry>, pattern: string,
                 ghost l0: Live, ghost n0: nat, ghost kept: seq<Entry>, ghost texts: seq<string>)
    requires Gained(l0, n0, strings.live, strings.next, items + kept)
    requires Holds(items + kept, pattern, strings.live, texts)
    modifies strings
    ensures Gained(l0, n0, strings.live, strings.next, kept)
    ensures Holds(kept, pattern, strings.live, texts[|items|..])
  {
    hide Gained, Holds;
    var i := 0;
    assert items[0..] + kept == items + kept && texts[0..] == texts;
    assert |texts| == |items| + |kept| by { HoldsLength(items + kept, pattern, strings.live, texts); }
    while i < |items|
      invariant i <= |items|
      invariant Gained(l0, n0, strings.live, strings.next, items[i..] + kept)
      invariant Holds(items[i..] + kept, pattern, strings.live, texts[i..])
    {
      GainedDrop(l0, n0, strings.live, strings.next, items[i..] + kept, pattern, texts[i..]);
      if items[i].Owned? { strings.Free(items[i].id); }
      assert (items[i..] + kept)[1..] == items[i + 1..] + kept;
      i := i + 1;
    }
    assert items[i..] + kept == kept;
  }

  lemma HoldsLength(items: seq<Entry>, pattern: string, live: Live, texts: seq<string>)
    requires Holds(items, pattern, live, texts)
    ensures |items| == |texts|
  {}

  /** The product of the options in `self` and what is in `rest`, added to `dest`; the strings of
      both lists are freed on the way. */
  method Combine(strings: Strings, dest: Results, pattern: string, before: string,
                 self: seq<Entry>, rest: seq<Entry>,
                 ghost l0: Live, ghost n0: nat, ghost s: seq<string>, ghost r: seq<string>)
    requires Gained(l0, n0, strings.live, strings.next, self + rest)
    requires Holds(self + rest, pattern, strings.live, s + r) && |s| == |self| && |r| == |rest|
    modifies strings, dest
    ensures Added(l0, n0, old(dest.items), strings.live, strings.next, dest.items, pattern, Product(before, s, r))
  {
    hide Gained, Holds, Product;
    ghost var start := dest.items;
    ghost var added: seq<Entry> := [];
    ghost var texts: seq<string> := [];
    var i := 0;
    ProductNone(before, r);
    assert s[..0] == [];
    assert self[0..] + rest + added == self + rest && s[0..] + r + texts == s + r;
    while i < |self|
      invariant i <= |self| && dest.items == start + added && texts == Product(before, s[..i], r)
      invariant Gained(l0, n0, strings.live, strings.next, self[i..] + rest + added)
      invariant Holds(self[i..] + rest + added, pattern, strings.live, s[i..] + r + texts)
    {
      ghost var held := self[i..] + rest + added;
      ghost var heldTexts := s[i..] + r + texts;
      HoldsLength(held, pattern, strings.live, heldTexts);
      AppendRow(strings, dest, pattern, before, self[i], rest, l0, n0, held, heldTexts, s[i], |self| - i, r);
      ghost var row := dest.items[|start + added|..];
      GainedDrop(l0, n0, strings.live, strings.next, held + row, pattern, heldTexts + Row(before + s[i], r));
      if self[i].Owned? { strings.Free(self[i].id); }
      ProductStep(before, s, r, i);
      DropOne(self, i, rest, added, row);
      DropOne(s, i, r, texts, Row(before + s[i], r));
      added := added + row;
      texts := texts + Row(before + s[i], r);
      i := i + 1;
    }
    assert self[i..] + rest + added == rest + added && s[i..] + r + texts == r + texts;
    Release(strings, rest, pattern, l0, n0, added, r + texts);
    assert (r + texts)[|rest|..] == texts && s[..i] == s;
    assert dest.items[|start|..] == added;
  }

  lemma DropOne<T>(s: seq<T>, i: nat, rest: seq<T>, added: seq<T>, row: seq<T>)
    requires i < |s|
    ensures (s[i..] + rest + added + row)[1..] == s[i + 1..] + rest + (added + row)
  {}

  lemma ProductNone(before: string, r: seq<string>)
    ensures Product(before, [], r) == []
  {}

  lemma ProductStep(before: string, s: seq<string>, r: seq<string>, i: nat)
    requires i < |s|
    ensures Product(before, s[..i + 1], r) == Product(before, s[..i], r) + Row(before + s[i], r)
  {
    ProductAppend(before, s[..i], [s[i]], r);
    assert s[..i + 1] == s[..i] + [s[i]];
    assert Product(before, [s[i]], r) == Row(before + s[i], r) + Product(before, [s[i]][1..], r);
  }

  /** Expands the `len` characters of `pattern` from `from` on. */
  method CurlyExpRec(strings: Strings, dest: Results, pattern: string, from: nat, len: nat)
    requires Clean(strings) && from + len <= |pattern|
    modifies strings, dest
    ensures Clean(strings)
    ensures Added(old(strings.live), old(strings.next), old(dest.items), strings.live, strings.next, dest.items,
                  pattern, Expand(pattern[from..from + len]))
    decreases len, 0
  {
    hide Expand, ExpandOptions, Product, Gained, Holds, Added;
    var p := pattern[from..from + len];
    ghost var l0, n0 := strings.live, strings.next;
    var open := FindOpen(p);
    if open == len {
      dest.items := dest.items + [Slice(from, len)];
      ExpandPlain(p);
      AddedSlice(l0, n0, old(dest.items), pattern, from, len);
      return;
    }
    var close := FindClose(p, open);
    if close == len {
      ExpandUnmatched(p, open);
      AddedNothing(l0, n0, dest.items, pattern);
      return;
    }
    ghost var optionsText := pattern[from + open + 1..from + open + 1 + (close - open - 1)];
    ghost var restText := pattern[from + close + 1..from + close + 1 + (len - close - 1)];
    ExpandMatched(p, open, close, pattern, from, optionsText, restText);
    var rest := new Results();
    CurlyExpRec(strings, rest, pattern, from + close + 1, len - close - 1);
    ghost var l1, n1 := strings.live, strings.next;
    AddedToEmpty(l0, n0, l1, n1, rest.items, pattern, Expand(restText));
    var self := new Results();
    CurlyExpOptions(strings, self, pattern, from + open + 1, close - open - 1);
    BothLists(l0, n0, l1, n1, strings.live, strings.next, rest.items, self.items, pattern,
              Expand(restText), ExpandOptions(optionsText));
    Combine(strings, dest, pattern, p[..open], self.items, rest.items, l0, n0,
            ExpandOptions(optionsText), Expand(restText));
    AddedClean(l0, n0, old(dest.items), strings.live, strings.next, dest.items, pattern,
               Product(p[..open], ExpandOptions(optionsText), Expand(restText)));
  }

  lemma ExpandPlain(p: string)
    requires Find(p, 0, '{') == |p|
    ensures Expand(p) == [p]
  {}

  lemma ExpandUnmatched(p: string, open: nat)
    requires Find(p, 0, '{') == open < |p| && Close(p[open + 1..], 1) == |p[open + 1..]|
    ensures Expand(p) == []
  {}

  lemma ExpandMatched(p: string, open: nat, close: nat, pattern: string, from: nat,
                      optionsText: string, restText: string)
    requires from + |p| <= |pattern| && p == pattern[from..from + |p|]
    requires Find(p, 0, '{') == open && open < close < |p| && close == open + 1 + Close(p[open + 1..], 1)
    requires optionsText == pattern[from + open + 1..from + close]
    requires restText == pattern[from + close + 1..from + |p|]
    ensures Expand(p) == Product(p[..open], ExpandOptions(optionsText), Expand(restText))
  {
    hide Expand, ExpandOptions, Product;
    var inside := p[open + 1..];
    ExpandAt(p, open, inside, close - open - 1);
    assert inside[..close - open - 1] == optionsText;
    assert inside[close - open..] == restText;
  }

  lemma AddedToEmpty(live: Live, next: nat, live': Live, next': nat, items: seq<Entry>, pattern: string,
                     texts: seq<string>)
    requires Added(live, next, [], live', next', items, pattern, texts)
    ensures Gained(live, next, live', next', items) && Holds(items, pattern, live', texts)
  {
    assert items[0..] == items;
  }

  lemma BothLists(l0: Live, n0: nat, l1: Live, n1: nat, l2: Live, n2: nat, rest: seq<Entry>, self: seq<Entry>,
                  pattern: string, r: seq<string>, s: seq<string>)
    requires Gained(l0, n0, l1, n1, rest) && Holds(rest, pattern, l1, r)
    requires Gained(l1, n1, l2, n2, self) && Holds(self, pattern, l2, s)
    ensures Gained(l0, n0, l2, n2, self + rest) && Holds(self + rest, pattern, l2, s + r)
    ensures |s| == |self| && |r| == |rest|
  {
    GainedJoin(l0, n0, l1, n1, l2, n2, rest, self);
    HoldsAgree(rest, pattern, l1, l2, r);
    HoldsAppend(self, rest, pattern, l2, s, r);
  }

  lemma AddedClean(live: Live, next: nat, items: seq<Entry>, live': Live, next': nat, items': seq<Entry>,
                   pattern: string, texts: seq<string>)
    requires Added(live, next, items, live', next', items', pattern, texts)
    ensures forall id :: id in live' ==> id < next'
  {}

  /** Expands each of the options between the commas. */
  method CurlyExpOptions(strings: Strings, self: Results, pattern: string, from: nat, len: nat)
    requires Clean(strings) && from + len <= |pattern| && self.items == []
    modifies strings, self
    ensures Clean(strings)
    ensures Gained(old(strings.live), old(strings.next), strings.live, strings.next, self.items)
    ensures Holds(self.items, pattern, strings.live, ExpandOptions(pattern[from..from + len]))
    decreases len, 1
  {
    hide Expand, ExpandOptions, Gained, Holds;
    ghost var body := pattern[from..from + len];
    ghost var l0, n0 := strings.live, strings.next;
    ghost var done: seq<string> := [];
    GainedNothing(l0, n0, pattern);
    var start, i := 0, 0;
    assert body[0..] == body && [] + ExpandOptions(body) == ExpandOptions(body);
    while i < len
      invariant start <= i <= len && Clean(strings)
      invariant forall k :: start <= k < i ==> body[k] != ','
      invariant Gained(l0, n0, strings.live, strings.next, self.items)
      invariant Holds(self.items, pattern, strings.live, done)
      invariant ExpandOptions(body) == done + ExpandOptions(body[start..])
    {
      if pattern[from + i] == ',' {
        ghost var l1, n1, items := strings.live, strings.next, self.items;
        CurlyExpRec(strings, self, pattern, from + start, i - start);
        SubSlice(pattern, from, len, start, i);
        AddedJoin(l0, n0, l1, n1, items, strings.live, strings.next, self.items, pattern, done, Expand(body[start..i]));
        OptionsStep(body, start, i);
        assert done + (Expand(body[start..i]) + ExpandOptions(body[i + 1..]))
            == done + Expand(body[start..i]) + ExpandOptions(body[i + 1..]);
        done := done + Expand(body[start..i]);
        start := i + 1;
      }
      i := i + 1;
    }
    ghost var l1, n1, items := strings.live, strings.next, self.items;
    CurlyExpRec(strings, self, pattern, from + start, len - start);
    SubSlice(pattern, from, len, start, len);
    assert body[start..len] == body[start..];
    AddedJoin(l0, n0, l1, n1, items, strings.live, strings.next, self.items, pattern, done, Expand(body[start..]));
    OptionsLast(body, start);
  }

  lemma SubSlice(pattern: string, from: nat, len: nat, a: nat, b: nat)
    requires from + len <= |pattern| && a <= b <= len
    ensures pattern[from + a..from + a + (b - a)] == pattern[from..from + len][a..b]
  {
    var x, y := pattern[from + a..from + a + (b - a)], pattern[from..from + len][a..b];
    assert |x| == |y| && forall k :: 0 <= k < |x| ==> x[k] == y[k];
  }

  lemma OptionsStep(body: string, start: nat, i: nat)
    requires start <= i < |body| && body[i] == ',' && forall k :: start <= k < i ==> body[k] != ','
    ensures ExpandOptions(body[start..]) == Expand(body[start..i]) + ExpandOptions(body[i + 1..])
  {
    hide Expand, ExpandOptions;
    ExpandOptionsMore(body[start..i], body[i + 1..]);
    assert body[start..] == body[start..i] + "," + body[i + 1..];
  }

  lemma OptionsLast(body: string, start: nat)
    requires start <= |body| && forall k :: start <= k < |body| ==> body[k] != ','
    ensures ExpandOptions(body[start..]) == Expand(body[start..])
  {
    ExpandOptionsOne(body[start..]);
  }

  lemma AddedSlice(live: Live, next: nat, items: seq<Entry>, pattern: string, from: nat, len: nat)
    requires from + len <= |pattern| && forall id :: id in live ==> id < next
    ensures Added(live, next, items, live, next, items + [Slice(from, len)], pattern, [pattern[from..from + len]])
  {
    assert (items + [Slice(from, len)])[|items|..] == [Slice(from, len)];
    assert Ids([Slice(from, len)]) == Ids([Slice(from, len)][1..]) == {};
  }

  lemma AddedNothing(live: Live, next: nat, items: seq<Entry>, pattern: string)
    requires forall id :: id in live ==> id < next
    ensures Added(live, next, items, live, next, items, pattern, [])
  {}

  lemma GainedNothing(live: Live, next: nat, pattern: string)
    requires forall id :: id in live ==> id < next
    ensures Gained(live, next, live, next, []) && Holds([], pattern, live, [])
  {}

  // ---- The interface ----------------------------------------------------------------------

  function OwnedBy(ids: seq<nat>, texts: seq<string>): (items: seq<Entry>)
    requires |ids| == |texts|
    ensures |items| == |ids|
  {
    seq(|ids|, k requires 0 <= k < |ids| => Owned(ids[k], |texts[k]|))
  }

  /** The results are on the heap, one string each, and nothing else has come to it. */
  ghost predicate Handed(live: Live, next: nat, live': Live, next': nat, pattern: string,
                         ids: seq<nat>, texts: seq<string>) {
    && |ids| == |texts|
    && Gained(live, next, live', next', OwnedBy(ids, texts))
    && Holds(OwnedBy(ids, texts), pattern, live', texts)
  }

  /** What `Handed` says of the heap: one more string for each result, all different. */
  lemma HandedMeans(live: Live, next: nat, live': Live, next': nat, pattern: string,
                    ids: seq<nat>, texts: seq<string>)
    requires Handed(live, next, live', next', pattern, ids, texts)
    ensures |live'| == |live| + |ids| && |ids| == |texts|
    ensures forall k :: 0 <= k < |ids| ==> ids[k] !in live && ids[k] in live' && live'[ids[k]] == texts[k] + [NUL]
    ensures forall j, k :: 0 <= j < k < |ids| ==> ids[j] != ids[k]
    ensures forall id :: id in live ==> id in live' && live'[id] == live[id]
  {
    var items := OwnedBy(ids, texts);
    GainedCount(live, next, live', next', items);
    AllOwned(items);
    forall k | 0 <= k < |ids| ensures ids[k] !in live && ids[k] in live' && live'[ids[k]] == texts[k] + [NUL] {
      assert EntryIs(items[k], pattern, live', texts[k]);
      OwnedInIds(items, k);
    }
    forall j, k | 0 <= j < k < |ids| ensures ids[j] != ids[k] { DistinctAt(items, j, k); }
  }

  lemma {:induction false} AllOwned(items: seq<Entry>)
    requires forall k :: 0 <= k < |items| ==> items[k].Owned?
    ensures OwnedCount(items) == |items|
    decreases |items|
  {
    if items == [] {
    } else {
      AllOwned(items[1..]);
    }
  }

  lemma {:induction false} DistinctAt(items: seq<Entry>, j: nat, k: nat)
    requires Distinct(items) && j < k < |items| && items[j].Owned? && items[k].Owned?
    ensures items[j].id != items[k].id
    decreases |items|
  {
    if j == 0 { OwnedInIds(items[1..], k - 1); } else { DistinctAt(items[1..], j - 1, k - 1); }
  }

  /** A slice becomes a string of its own. */
  lemma GainedSwap(l0: Live, n0: nat, live: Live, next: nat, pre: seq<Entry>, e: Entry, post: seq<Entry>,
                   pattern: string, texts: seq<string>, text: string)
    requires e.Slice? && |pre| < |texts| && texts[|pre|] == text
    requires Gained(l0, n0, live, next, pre + [e] + post) && Holds(pre + [e] + post, pattern, live, texts)
    ensures var live' := live[next := text + [NUL]];
            var items' := pre + [Owned(next, |text|)] + post;
            Gained(l0, n0, live', next + 1, items') && Holds(items', pattern, live', texts)
  {
    var live' := live[next := text + [NUL]];
    var made := [Owned(next, |text|)];
    OneOwned(next, |text|);
    assert Ids([e]) == Ids([e][1..]) == {};
    IdsAppend(pre + [e], post);
    IdsAppend(pre, [e]);
    IdsAppend(pre + made, post);
    IdsAppend(pre, made);
    HoldsAgree(pre + [e] + post, pattern, live, live', texts);
    SwapHolds(pre, e, post, pattern, live', texts, Owned(next, |text|));
  }

  lemma SwapHolds(pre: seq<Entry>, e: Entry, post: seq<Entry>, pattern: string, live: Live, texts: seq<string>,
                  e': Entry)
    requires Holds(pre + [e] + post, pattern, live, texts) && EntryIs(e', pattern, live, texts[|pre|])
    ensures Holds(pre + [e'] + post, pattern, live, texts)
  {
    forall k | 0 <= k < |texts| ensures EntryIs((pre + [e'] + post)[k], pattern, live, texts[k]) {
      assert k != |pre| ==> (pre + [e'] + post)[k] == (pre + [e] + post)[k];
    }
  }

  /** Expands the pattern in a NUL-terminated buffer into strings of their own. */
  method Curlyexp(strings: Strings, buf: string) returns (res: seq<nat>)
    requires Clean(strings) && NUL in buf
    modifies strings
    ensures Clean(strings)
    ensures var pattern := buf[..Length(buf, NUL)];
            Handed(old(strings.live), old(strings.next), strings.live, strings.next, pattern, res, Expand(pattern))
  {
    hide Gained, Holds, Expand, Added, OwnedBy;
    var len := Length(buf, NUL);
    var pattern := buf[..len];
    ghost var l0, n0 := strings.live, strings.next;
    ghost var texts := Expand(pattern);
    var resi := new Results();
    CurlyExpRec(strings, resi, pattern, 0, len);
    var items := resi.items;
    assert pattern[0..0 + len] == pattern;
    AddedToEmpty(l0, n0, strings.live, strings.next, items, pattern, texts);
    HoldsLength(items, pattern, strings.live, texts);
    res := [];
    OwnedByNone(texts);
    assert [] + items[0..] == items;
    var i := 0;
    while i < |items|
      invariant |res| == i <= |items| == |texts| && Clean(strings)
      invariant Gained(l0, n0, strings.live, strings.next, OwnedBy(res, texts[..i]) + items[i..])
      invariant Holds(OwnedBy(res, texts[..i]) + items[i..], pattern, strings.live, texts)
    {
      ghost var pre, post := OwnedBy(res, texts[..i]), items[i + 1..];
      AtMiddle(pre, items, i, items[i]);
      HoldsMiddle(pre, items[i], post, pattern, strings.live, texts);
      var id: nat;
      match items[i] {
        case Owned(owned, n) =>
          id := owned;
          assert items[i] == Owned(id, |texts[i]|);
        case Slice(from, n) =>
          GainedSwap(l0, n0, strings.live, strings.next, pre, items[i], post, pattern, texts, texts[i]);
          id := strings.Malloc(pattern[from..from + n]);
      }
      OwnedByStep(res, texts, i, id);
      res := res + [id];
      i := i + 1;
    }
    assert texts[..i] == texts && OwnedBy(res, texts) + items[i..] == OwnedBy(res, texts);
  }

  lemma OwnedByNone(texts: seq<string>)
    ensures OwnedBy([], texts[..0]) == []
  {}

  lemma OwnedByStep(res: seq<nat>, texts: seq<string>, i: nat, id: nat)
    requires |res| == i < |texts|
    ensures OwnedBy(res + [id], texts[..i + 1]) == OwnedBy(res, texts[..i]) + [Owned(id, |texts[i]|)]
  {}

  lemma AtMiddle(pre: seq<Entry>, items: seq<Entry>, i: nat, e: Entry)
    requires i < |items| && items[i] == e
    ensures pre + items[i..] == pre + [e] + items[i + 1..]
  {}

  lemma HoldsMiddle(pre: seq<Entry>, e: Entry, post: seq<Entry>, pattern: string, live: Live, texts: seq<string>)
    requires Holds(pre + [e] + post, pattern, live, texts)
    ensures |pre| < |texts| && EntryIs(e, pattern, live, texts[|pre|])
  {
    assert (pre + [e] + post)[|pre|] == e;
  }

  /** Frees every result, once; the heap is as it was before the expansion. */
  method CurlyexpFree(strings: Strings, res: seq<nat>, ghost l0: Live, ghost n0: nat,
                      ghost pattern: string, ghost texts: seq<string>)
    requires Handed(l0, n0, strings.live, strings.next, pattern, res, texts)
    modifies strings
    ensures strings.live == l0
  {
    hide Gained, Holds;
    ghost var items := OwnedBy(res, texts);
    assert items[0..] == items && texts[0..] == texts;
    var i := 0;
    while i < |res|
      invariant i <= |res|
      invariant Gained(l0, n0, strings.live, strings.next, items[i..])
      invariant Holds(items[i..], pattern, strings.live, texts[i..])
    {
      GainedDrop(l0, n0, strings.live, strings.next, items[i..], pattern, texts[i..]);
      strings.Free(res[i]);
      i := i + 1;
    }
    GainedNone(l0, n0, strings.live, strings.next, items[i..]);
  }

  lemma GainedNone(live: Live, next: nat, live': Live, next': nat, items: seq<Entry>)
    requires Gained(live, next, live', next', items) && items == []
    ensures live' == live
  {
    assert live'.Keys == live.Keys;
  }

  /** A client that expands a pattern and releases the results leaves no string behind. */
  method ExpandAndFree(strings: Strings, buf: string) returns (count: nat)
    requires Clean(strings) && NUL in buf
    modifies strings
    ensures strings.live == old(strings.live)
    ensures count == |Expand(buf[..Length(buf, NUL)])|
  {
    hide Expand;
    ghost var l0, n0 := strings.live, strings.next;
    ghost var pattern := buf[..Length(buf, NUL)];
    var res := Curlyexp(strings, buf);
    count := |res|;
    CurlyexpFree(strings, res, l0, n0, pattern, Expand(pattern));
  }
}
