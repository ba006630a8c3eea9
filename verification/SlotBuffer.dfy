/** The byte buffer behind a dynamic list. */
module SlotBuffer {
  import opened Bytes
  import opened DynamicListSpec
  import opened StridedCopy

  predicate Inside(length: nat, stride: nat, i: nat) { Start(0, stride, i) + stride <= length }

  function SlotAt(d: seq<byte>, stride: nat, i: nat): (x: seq<byte>)
    requires Inside(|d|, stride, i)
    ensures |x| == stride
  {
    d[Start(0, stride, i)..Start(0, stride, i) + stride]
  }

  lemma InsideCap(length: nat, stride: nat, cap: nat, i: nat)
    requires length == Start(0, stride, cap) && i < cap
    ensures Inside(length, stride, i)
  {
    StartsApart(0, stride, i, cap);
  }

  /** The written ones of the first `k` elements are where they belong. */
  ghost predicate Stored(d: seq<byte>, stride: nat, elems: seq<Slot>, k: nat)
    requires k <= |elems|
  {
    k == 0 || (Stored(d, stride, elems, k - 1) && StoredAt(d, stride, elems, k - 1))
  }

  ghost predicate StoredAt(d: seq<byte>, stride: nat, elems: seq<Slot>, i: nat)
    requires i < |elems|
  {
    elems[i].Holds? ==> Inside(|d|, stride, i) && SlotAt(d, stride, i) == elems[i].bytes
  }

  lemma {:induction false} StoredEach(d: seq<byte>, stride: nat, elems: seq<Slot>, k: nat)
    requires k <= |elems|
    ensures Stored(d, stride, elems, k) <==> forall i: nat :: i < k ==> StoredAt(d, stride, elems, i)
  {
    if k == 0 {
    } else {
      StoredEach(d, stride, elems, k - 1);
    }
  }

  /** `d` is a block of `st.cap` slots that holds the elements of `st`. */
  ghost predicate Represents(d: seq<byte>, stride: nat, st: State) {
    && |d| == Start(0, stride, st.cap)
    && |st.elems| <= st.cap
    && Stored(d, stride, st.elems, |st.elems|)
  }

  /** The block has `st.cap` slots, and every written element lies `stride` bytes behind the one
      before it; nothing more is asked. */
  lemma RepresentsIff(d: seq<byte>, stride: nat, st: State)
    ensures Represents(d, stride, st) <==>
            && |d| == stride * st.cap && |st.elems| <= st.cap
            && forall i: nat :: i < |st.elems| && st.elems[i].Holds? ==>
                 && stride * i + stride <= |d|
                 && d[stride * i..stride * i + stride] == st.elems[i].bytes
  {
    StoredEach(d, stride, st.elems, |st.elems|);
    forall i: nat | i < |st.elems|
      ensures StoredAt(d, stride, st.elems, i) <==>
              (st.elems[i].Holds? ==>
                 && stride * i + stride <= |d|
                 && d[stride * i..stride * i + stride] == st.elems[i].bytes)
    {}
  }

  /** Slots that hold nothing in particular may be added or cut off at the end. */
  lemma Resized(d: seq<byte>, stride: nat, st: State, elems: seq<Slot>)
    requires Represents(d, stride, st) && |elems| <= st.cap
    requires forall i: nat :: i < |elems| && elems[i].Holds? ==> i < |st.elems| && elems[i] == st.elems[i]
    ensures Represents(d, stride, st.(elems := elems))
  {
    StoredEach(d, stride, st.elems, |st.elems|);
    forall i: nat | i < |elems| ensures StoredAt(d, stride, elems, i) {
      assert i < |st.elems| ==> StoredAt(d, stride, st.elems, i);
    }
    StoredEach(d, stride, elems, |elems|);
  }

  /** Writing one slot. */
  lemma WriteSlot(d: seq<byte>, stride: nat, st: State, pos: nat, x: seq<byte>)
    requires Represents(d, stride, st) && pos < st.cap && |x| == stride
    ensures Inside(|d|, stride, pos)
    ensures pos < |st.elems| ==>
      Represents(Splice(d, Start(0, stride, pos), x), stride, st.(elems := st.elems[pos := Holds(x)]))
    ensures pos >= |st.elems| ==>
      Represents(Splice(d, Start(0, stride, pos), x), stride, st)
  {
    InsideCap(|d|, stride, st.cap, pos);
    var d' := Splice(d, Start(0, stride, pos), x);
    var elems' := if pos < |st.elems| then st.elems[pos := Holds(x)] else st.elems;
    StoredEach(d, stride, st.elems, |st.elems|);
    forall i: nat | i < |st.elems| ensures StoredAt(d', stride, elems', i) {
      assert StoredAt(d, stride, st.elems, i);
      if i < pos {
        StartsApart(0, stride, i, pos);
      } else if i > pos {
        StartsApart(0, stride, pos, i);
      }
    }
    StoredEach(d', stride, elems', |elems'|);
  }

  /** A reallocation that keeps the common prefix keeps every element. */
  lemma Reallocated(d: seq<byte>, d': seq<byte>, stride: nat, st: State, cap: nat)
    requires Represents(d, stride, st)
    requires |st.elems| <= cap && |d'| == Start(0, stride, cap)
    requires forall p :: 0 <= p < |d| && p < |d'| ==> d'[p] == d[p]
    ensures Represents(d', stride, st.(cap := cap))
  {
    StoredEach(d, stride, st.elems, |st.elems|);
    forall i: nat | i < |st.elems| ensures StoredAt(d', stride, st.elems, i) {
      assert StoredAt(d, stride, st.elems, i);
      InsideCap(|d'|, stride, cap, i);
      assert Inside(|d|, stride, i) ==> SlotAt(d', stride, i) == SlotAt(d, stride, i);
    }
    StoredEach(d', stride, st.elems, |st.elems|);
  }

  /** The byte shift that closes the gap left by elements `first..last + 1` of `n`. */
  function ShiftDown(d: seq<byte>, stride: nat, n: nat, first: nat, last: nat): (r: seq<byte>)
    requires first <= last < n && Start(0, stride, n) <= |d|
    ensures |r| == |d|
  {
    ShiftBounds(stride, n, first, last);
    Splice(d, Start(0, stride, first), d[Start(0, stride, last + 1)..Start(0, stride, n)])
  }

  lemma ShiftBounds(stride: nat, n: nat, first: nat, last: nat)
    requires first <= last < n
    ensures Start(0, stride, first) <= Start(0, stride, last + 1) <= Start(0, stride, n)
    ensures Start(0, stride, n) - Start(0, stride, last + 1) == Start(0, stride, n - (last + 1))
  {
    StartSum(stride, first, last + 1 - first);
    StartSum(stride, last + 1, n - (last + 1));
  }

  lemma ShiftedSlot(d: seq<byte>, stride: nat, n: nat, first: nat, last: nat, i: nat)
    requires first <= last < n && Start(0, stride, n) <= |d|
    requires i < n - (last + 1 - first)
    ensures var from := if i < first then i else i + (last + 1 - first);
      && Inside(|d|, stride, i) && Inside(|d|, stride, from)
      && SlotAt(ShiftDown(d, stride, n, first, last), stride, i) == SlotAt(d, stride, from)
  {
    hide Start;
    ShiftBounds(stride, n, first, last);
    StartsApart(0, stride, i, n);
    var a, b, c := Start(0, stride, first), Start(0, stride, last + 1), Start(0, stride, n);
    if i < first {
      StartsApart(0, stride, i, first);
      SpliceSlice(d, a, d[b..c], Start(0, stride, i), stride);
    } else {
      var k := last + 1 - first;
      StartsApart(0, stride, i + k, n);
      StartSum(stride, i, k);
      StartSum(stride, first, k);
      StartSum(stride, first, i - first);
      SpliceSlice(d, a, d[b..c], Start(0, stride, i), stride);
    }
  }

  /** Moving the elements after a range down over it removes the range. */
  lemma ShiftedDown(d: seq<byte>, stride: nat, st: State, first: nat, last: nat)
    requires Represents(d, stride, st) && first <= last < |st.elems|
    ensures Start(0, stride, |st.elems|) <= |d|
    ensures Represents(ShiftDown(d, stride, |st.elems|, first, last), stride,
                       st.(elems := st.elems[..first] + st.elems[last + 1..]))
  {
    var n := |st.elems|;
    StartSum(stride, n, st.cap - n);
    var d' := ShiftDown(d, stride, n, first, last);
    var elems' := st.elems[..first] + st.elems[last + 1..];
    StoredEach(d, stride, st.elems, n);
    forall i: nat | i < |elems'| ensures StoredAt(d', stride, elems', i) {
      ShiftedSlot(d, stride, n, first, last, i);
      assert StoredAt(d, stride, st.elems, if i < first then i else i + (last + 1 - first));
    }
    StoredEach(d', stride, elems', |elems'|);
  }

  lemma FitsSlots(length: nat, stride: nat, cap: nat, n: nat, k: nat)
    requires length == Start(0, stride, cap) && n + k <= cap
    ensures Fits(length, Start(0, stride, n), stride, k, stride)
    ensures k > 0 ==> Start(Start(0, stride, n), stride, k - 1) == Start(0, stride, n + k - 1)
  {
    StartSum(stride, n, cap - n);
    if k > 0 {
      StartSum(stride, n, k - 1);
      StartChain(Start(0, stride, n), stride, k - 1);
      StartsApart(0, stride, n + k - 1, cap);
    }
  }

  /** `slots` with the elements `xs` from position `n` on. */
  function Overlay(slots: seq<Slot>, n: nat, xs: seq<seq<byte>>): (r: seq<Slot>)
    requires n + |xs| <= |slots|
    ensures |r| == |slots|
  {
    Splice(slots, n, Filled(xs))
  }

  lemma OverlayPush(slots: seq<Slot>, n: nat, xs: seq<seq<byte>>, x: seq<byte>)
    requires n + |xs| < |slots|
    ensures Overlay(slots, n, xs + [x]) == Overlay(slots, n, xs)[n + |xs| := Holds(x)]
  {}

  lemma AddedAtEnd(st: State, n: nat, xs: seq<seq<byte>>)
    requires n == |xs|
    ensures Appended(st.elems, xs, st.elems + Filled(xs))
    ensures |Grown(st, n).elems| == |st.elems| + n
    ensures Overlay(Grown(st, n).elems, |st.elems|, xs) == st.elems + Filled(xs)
  {
    hide Reserved;
  }

  /** Writing one more slot of a run. */
  lemma WriteNext(d: seq<byte>, stride: nat, st: State, n: nat, xs: seq<seq<byte>>, x: seq<byte>,
                  pos: nat, next: seq<byte>)
    requires n + |xs| < |st.elems| <= st.cap && |x| == stride
    requires Represents(d, stride, st.(elems := Overlay(st.elems, n, xs)))
    requires pos == Start(0, stride, n + |xs|) && pos + |x| <= |d| && next == Splice(d, pos, x)
    ensures Represents(next, stride, st.(elems := Overlay(st.elems, n, xs + [x])))
  {
    WriteSlot(d, stride, st.(elems := Overlay(st.elems, n, xs)), n + |xs|, x);
    OverlayPush(st.elems, n, xs, x);
  }

  /** Scattering a run of elements over slots that start at `n` writes those slots. */
  lemma {:induction false} ScatteredSlots(d: seq<byte>, stride: nat, st: State, n: nat,
                                          s: seq<byte>, sOff: nat, sStride: nat, k: nat)
    requires Represents(d, stride, st) && n + k <= |st.elems|
    requires Fits(|s|, sOff, sStride, k, stride)
    ensures Fits(|d|, Start(0, stride, n), stride, k, stride)
    ensures Represents(CopyElements(d, Start(0, stride, n), stride, s, sOff, sStride, k, stride), stride,
                       st.(elems := Overlay(st.elems, n, Elements(s, sOff, sStride, k, stride))))
  {
    hide Start;
    var at := Start(0, stride, n);
    FitsSlots(|d|, stride, st.cap, n, k);
    if k == 0 {
      assert Overlay(st.elems, n, []) == st.elems;
    } else {
      CopyElementsPush(d, at, stride, s, sOff, sStride, k, stride);
      ScatteredSlots(d, stride, st, n, s, sOff, sStride, k - 1);
      WriteNext(CopyElements(d, at, stride, s, sOff, sStride, k - 1, stride), stride, st, n,
                Elements(s, sOff, sStride, k - 1, stride), Element(s, sOff, sStride, k, stride, k - 1),
                Start(at, stride, k - 1), CopyElements(d, at, stride, s, sOff, sStride, k, stride));
    }
  }
}
