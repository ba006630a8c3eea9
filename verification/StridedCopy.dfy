/** `strided_memcpy` of `memlib.c`: copying elements between arrays whose elements sit at
    different distances. */
module StridedCopy {
  import opened Bytes

  const MAX_STRIDE: nat := 128

  /** Where element `j` of a strided run starts. */
  function Start(offset: nat, stride: nat, j: nat): nat { offset + stride * j }

  lemma StartsApart(offset: nat, stride: nat, i: nat, j: nat)
    requires i < j
    ensures Start(offset, stride, i) + stride <= Start(offset, stride, j)
  {
    var d: nat := j - i - 1;
    MulSplit(stride, i, d);
    assert j == i + 1 + d;
  }

  lemma MulSplit(k: nat, i: nat, d: nat)
    ensures k * (i + 1 + d) == k * i + k + k * d && k * d >= 0
  {}

  lemma StartIsProduct(offset: nat, stride: nat, j: nat)
    ensures Start(offset, stride, j) == offset + j * stride
  {}

  lemma StartZero(offset: nat, stride: nat)
    ensures Start(offset, stride, 0) == offset
  {}

  lemma StartSum(stride: nat, i: nat, j: nat)
    ensures Start(0, stride, i + j) == Start(0, stride, i) + Start(0, stride, j)
  {}

  lemma StartChain(offset: nat, stride: nat, j: nat)
    ensures Start(offset, stride, j) == offset + Start(0, stride, j)
    ensures Start(offset, stride, j + 1) == Start(offset, stride, j) + stride
  {}

  /** A run of `n` elements of `elSize` bytes that start `stride` bytes apart, the first at
      `offset`, lies inside a buffer of `length` bytes. */
  predicate Fits(length: nat, offset: nat, stride: nat, n: nat, elSize: nat) {
    && elSize <= stride
    && offset <= length
    && (n == 0 || Start(offset, stride, n - 1) + elSize <= length)
  }

  lemma FitsPrefix(length: nat, offset: nat, stride: nat, n: nat, elSize: nat, j: nat)
    requires Fits(length, offset, stride, n, elSize) && j < n
    ensures Fits(length, offset, stride, j, elSize)
    ensures Start(offset, stride, j) + elSize <= length
  {
    if j < n - 1 {
      StartsApart(offset, stride, j, n - 1);
    }
    if j > 0 {
      StartsApart(offset, stride, j - 1, n - 1);
    }
  }

  /** Element `j` of a strided run. */
  function Element<T>(buf: seq<T>, offset: nat, stride: nat, n: nat, elSize: nat, j: nat): seq<T>
    requires Fits(|buf|, offset, stride, n, elSize) && j < n
  {
    FitsPrefix(|buf|, offset, stride, n, elSize, j);
    buf[Start(offset, stride, j)..Start(offset, stride, j) + elSize]
  }

  /** All the elements of a strided run. */
  function Elements<T>(buf: seq<T>, offset: nat, stride: nat, n: nat, elSize: nat): (xs: seq<seq<T>>)
    requires Fits(|buf|, offset, stride, n, elSize)
    ensures |xs| == n && forall x :: x in xs ==> |x| == elSize
  {
    if n == 0 then []
    else
      FitsPrefix(|buf|, offset, stride, n, elSize, n - 1);
      Elements(buf, offset, stride, n - 1, elSize) + [Element(buf, offset, stride, n, elSize, n - 1)]
  }

  /** The elements one by one, by position. */
  lemma {:induction false} ElementsAt<T>(buf: seq<T>, offset: nat, stride: nat, n: nat, elSize: nat, j: nat)
    requires Fits(|buf|, offset, stride, n, elSize) && j < n
    ensures Start(offset, stride, j) + elSize <= |buf|
    ensures Elements(buf, offset, stride, n, elSize)[j]
         == buf[Start(offset, stride, j)..Start(offset, stride, j) + elSize]
  {
    hide Start;
    FitsPrefix(|buf|, offset, stride, n, elSize, j);
    FitsPrefix(|buf|, offset, stride, n, elSize, n - 1);
    if j >= n - 1 {
    } else {
      ElementsAt(buf, offset, stride, n - 1, elSize, j);
    }
  }

  /** `d` after elements `0..n` of `s` have been copied, one after the other. */
  function CopyElements<T>(d: seq<T>, dOff: nat, dStride: nat,
                           s: seq<T>, sOff: nat, sStride: nat, n: nat, elSize: nat): (r: seq<T>)
    requires Fits(|d|, dOff, dStride, n, elSize) && Fits(|s|, sOff, sStride, n, elSize)
    ensures |r| == |d|
  {
    if n == 0 then d
    else
      FitsPrefix(|d|, dOff, dStride, n, elSize, n - 1);
      FitsPrefix(|s|, sOff, sStride, n, elSize, n - 1);
      var before := CopyElements(d, dOff, dStride, s, sOff, sStride, n - 1, elSize);
      Splice(before, Start(dOff, dStride, n - 1), Element(s, sOff, sStride, n, elSize, n - 1))
  }

  lemma CopyElementsPush<T>(d: seq<T>, dOff: nat, dStride: nat,
                            s: seq<T>, sOff: nat, sStride: nat, n: nat, elSize: nat)
    requires Fits(|d|, dOff, dStride, n, elSize) && Fits(|s|, sOff, sStride, n, elSize) && n > 0
    ensures Fits(|d|, dOff, dStride, n - 1, elSize) && Fits(|s|, sOff, sStride, n - 1, elSize)
    ensures Start(dOff, dStride, n - 1) + elSize <= |d|
    ensures CopyElements(d, dOff, dStride, s, sOff, sStride, n, elSize)
         == Splice(CopyElements(d, dOff, dStride, s, sOff, sStride, n - 1, elSize),
                   Start(dOff, dStride, n - 1), Element(s, sOff, sStride, n, elSize, n - 1))
    ensures Elements(s, sOff, sStride, n, elSize)
         == Elements(s, sOff, sStride, n - 1, elSize) + [Element(s, sOff, sStride, n, elSize, n - 1)]
  {
    FitsPrefix(|d|, dOff, dStride, n, elSize, n - 1);
    FitsPrefix(|s|, sOff, sStride, n, elSize, n - 1);
  }

  /** Position `i` of a buffer belongs to none of the `n` elements. */
  ghost predicate Outside(i: nat, offset: nat, stride: nat, n: nat, elSize: nat) {
    forall j: nat :: j < n ==>
      !(Start(offset, stride, j) <= i < Start(offset, stride, j) + elSize)
  }

  /** Writing a later element does not touch an earlier one. */
  lemma SpliceKeepsElement<T>(d: seq<T>, offset: nat, stride: nat, n: nat, elSize: nat, j: nat, x: seq<T>)
    requires Fits(|d|, offset, stride, n, elSize) && j < n - 1 && |x| == elSize
    ensures Start(offset, stride, n - 1) + elSize <= |d|
    ensures Fits(|d|, offset, stride, n - 1, elSize)
    ensures Element(Splice(d, Start(offset, stride, n - 1), x), offset, stride, n, elSize, j)
         == Element(d, offset, stride, n - 1, elSize, j)
  {
    FitsPrefix(|d|, offset, stride, n, elSize, n - 1);
    FitsPrefix(|d|, offset, stride, n, elSize, j);
    StartsApart(offset, stride, j, n - 1);
  }

  /** Exactly the element bytes change: element `j` of the target becomes element `j` of the
      source, and every byte in a gap, before the run or after it keeps its value. */
  lemma {:induction false} CopyElementsExact<T>(d: seq<T>, dOff: nat, dStride: nat,
                             s: seq<T>, sOff: nat, sStride: nat, n: nat, elSize: nat)
    requires Fits(|d|, dOff, dStride, n, elSize) && Fits(|s|, sOff, sStride, n, elSize)
    ensures var r := CopyElements(d, dOff, dStride, s, sOff, sStride, n, elSize);
      && (forall j: nat :: j < n ==>
           Element(r, dOff, dStride, n, elSize, j) == Element(s, sOff, sStride, n, elSize, j))
      && (forall i: nat :: i < |d| && Outside(i, dOff, dStride, n, elSize) ==> r[i] == d[i])
  {
    if n == 0 {
    } else {
      FitsPrefix(|d|, dOff, dStride, n, elSize, n - 1);
      FitsPrefix(|s|, sOff, sStride, n, elSize, n - 1);
      CopyElementsExact(d, dOff, dStride, s, sOff, sStride, n - 1, elSize);
      var r := CopyElements(d, dOff, dStride, s, sOff, sStride, n, elSize);
      var before := CopyElements(d, dOff, dStride, s, sOff, sStride, n - 1, elSize);
      forall j: nat | j < n
        ensures Element(r, dOff, dStride, n, elSize, j) == Element(s, sOff, sStride, n, elSize, j)
      {
        if j < n - 1 {
          SpliceKeepsElement(before, dOff, dStride, n, elSize, j,
                             Element(s, sOff, sStride, n, elSize, n - 1));
        }
      }
    }
  }

  /** Reading back what was written: gathering the elements from where they were scattered to
      gives the source back, byte for byte. */
  lemma ScatterGatherIdentity<T>(d: seq<T>, dOff: nat, dStride: nat,
                                 s: seq<T>, sOff: nat, sStride: nat, n: nat, elSize: nat)
    requires Fits(|d|, dOff, dStride, n, elSize) && Fits(|s|, sOff, sStride, n, elSize)
    ensures var scattered := CopyElements(d, dOff, dStride, s, sOff, sStride, n, elSize);
      CopyElements(s, sOff, sStride, scattered, dOff, dStride, n, elSize) == s
  {
    CopyElementsExact(d, dOff, dStride, s, sOff, sStride, n, elSize);
    GatherKnown(s, sOff, sStride, CopyElements(d, dOff, dStride, s, sOff, sStride, n, elSize),
                dOff, dStride, n, n, elSize);
  }

  /** Copying elements that the target already holds changes nothing. */
  lemma {:induction false} GatherKnown<T>(
    d: seq<T>, dOff: nat, dStride: nat, s: seq<T>, sOff: nat, sStride: nat,
    n: nat, all: nat, elSize: nat)
    requires n <= all
    requires Fits(|d|, dOff, dStride, all, elSize) && Fits(|s|, sOff, sStride, all, elSize)
    requires Fits(|d|, dOff, dStride, n, elSize) && Fits(|s|, sOff, sStride, n, elSize)
    requires forall j: nat :: j < all ==>
      Element(d, dOff, dStride, all, elSize, j) == Element(s, sOff, sStride, all, elSize, j)
    ensures CopyElements(d, dOff, dStride, s, sOff, sStride, n, elSize) == d
  {
    hide Start;
    if n == 0 {
    } else {
      FitsPrefix(|d|, dOff, dStride, n, elSize, n - 1);
      FitsPrefix(|s|, sOff, sStride, n, elSize, n - 1);
      GatherKnown(d, dOff, dStride, s, sOff, sStride, n - 1, all, elSize);
      assert Element(d, dOff, dStride, all, elSize, n - 1)
          == Element(s, sOff, sStride, all, elSize, n - 1);
    }
  }

  lemma NoElements<T>(d: seq<T>, dOff: nat, dStride: nat, s: seq<T>, sOff: nat, sStride: nat, elSize: nat)
    requires Fits(|d|, dOff, dStride, 0, elSize) && Fits(|s|, sOff, sStride, 0, elSize)
    ensures CopyElements(d, dOff, dStride, s, sOff, sStride, 0, elSize) == Splice(d, dOff, s[sOff..sOff + 0])
  {}

  /** Elements that touch each other form one block. */
  lemma {:induction false} ContiguousIsBlock<T>(d: seq<T>, dOff: nat, s: seq<T>, sOff: nat,
                                                n: nat, elSize: nat, total: nat)
    requires Fits(|d|, dOff, elSize, n, elSize) && Fits(|s|, sOff, elSize, n, elSize)
    requires total == Start(0, elSize, n)
    ensures dOff + total <= |d| && sOff + total <= |s|
    ensures CopyElements(d, dOff, elSize, s, sOff, elSize, n, elSize)
         == Splice(d, dOff, s[sOff..sOff + total])
  {
    hide Start, CopyElements, Splice;
    StartZero(0, elSize);
    if n == 0 {
      NoElements(d, dOff, elSize, s, sOff, elSize, elSize);
    } else {
      var m := Start(0, elSize, n - 1);
      CopyElementsPush(d, dOff, elSize, s, sOff, elSize, n, elSize);
      FitsPrefix(|s|, sOff, elSize, n, elSize, n - 1);
      StartChain(dOff, elSize, n - 1);
      StartChain(sOff, elSize, n - 1);
      StartChain(0, elSize, n - 1);
      ContiguousIsBlock(d, dOff, s, sOff, n - 1, elSize, m);
      SpliceAppend(d, dOff, s, sOff, m, elSize,
                   Start(dOff, elSize, n - 1), Element(s, sOff, elSize, n, elSize, n - 1),
                   CopyElements(d, dOff, elSize, s, sOff, elSize, n - 1, elSize),
                   CopyElements(d, dOff, elSize, s, sOff, elSize, n, elSize));
    }
  }

  // ---- The masked loop --------------------------------------------------------------------

  /** The effect of the masked loop: byte `i` of the run is copied when its position within a
      block of 128 bytes is one of the first `elSize`, whatever the stride is. */
  function MaskedCopy<T>(d: seq<T>, dOff: nat, s: seq<T>, sOff: nat, total: nat, elSize: nat)
    : (r: seq<T>)
    requires dOff + total <= |d| && sOff + total <= |s|
    ensures |r| == |d|
    ensures forall p :: 0 <= p < |d| ==>
      r[p] == if dOff <= p < dOff + total && (p - dOff) % MAX_STRIDE < elSize
              then s[sOff + (p - dOff)]
              else d[p]
  {
    seq(|d|, p requires 0 <= p < |d| =>
      if dOff <= p < dOff + total && (p - dOff) % MAX_STRIDE < elSize
      then s[sOff + (p - dOff)]
      else d[p])
  }

  /** The branch that takes the masked loop. */
  predicate TakesMask(dStride: nat, sStride: nat, elSize: nat) {
    elSize < dStride == sStride <= elSize + MAX_STRIDE
  }

  method StridedMemcpySameStride(dest: array<byte>, d: nat, src: array<byte>, s: nat,
                                 numEl: nat, elSize: nat, stride: nat)
    requires 0 < elSize <= stride <= MAX_STRIDE
    requires dest != src
    requires Start(d, stride, numEl) <= dest.Length && Start(s, stride, numEl) <= src.Length
    modifies dest
    ensures dest[..] == MaskedCopy(old(dest[..]), d, src[..], s, Start(0, stride, numEl), elSize)
  {
    var mask := new bool[MAX_STRIDE];
    var i := 0;
    while i < elSize
      invariant i <= elSize
      invariant forall p :: 0 <= p < i ==> mask[p]
      invariant dest[..] == old(dest[..])
    {
      mask[i] := true;
      i := i + 1;
    }
    while i < MAX_STRIDE
      invariant elSize <= i <= MAX_STRIDE
      invariant forall p :: 0 <= p < i ==> mask[p] == (p < elSize)
      invariant dest[..] == old(dest[..])
    {
      mask[i] := false;
      i := i + 1;
    }
    var total := numEl * stride;
    StartIsProduct(0, stride, numEl);
    i := 0;
    while i < total
      invariant i <= total
      invariant forall p :: 0 <= p < MAX_STRIDE ==> mask[p] == (p < elSize)
      invariant dest[..] == MaskedCopy(old(dest[..]), d, src[..], s, i, elSize)
    {
      if mask[i % MAX_STRIDE] {
        dest[d + i] := src[s + i];
      }
      i := i + 1;
    }
  }

  method CopyEach(dest: array<byte>, d: nat, dStride: nat,
                  src: array<byte>, s: nat, sStride: nat, numEl: nat, elSize: nat)
    requires dest != src
    requires Fits(dest.Length, d, dStride, numEl, elSize)
    requires Fits(src.Length, s, sStride, numEl, elSize)
    modifies dest
    ensures dest[..] == CopyElements(old(dest[..]), d, dStride, src[..], s, sStride, numEl, elSize)
  {
    hide Start, CopyElements, Splice;
    ghost var was, from := dest[..], src[..];
    CopyNone(was, d, dStride, from, s, sStride, elSize);
    for i := 0 to numEl
      invariant Fits(dest.Length, d, dStride, i, elSize)
      invariant Fits(src.Length, s, sStride, i, elSize)
      invariant dest[..] == CopyElements(was, d, dStride, from, s, sStride, i, elSize)
    {
      FitsNext(dest.Length, d, dStride, numEl, elSize, i);
      FitsNext(src.Length, s, sStride, numEl, elSize, i);
      var dPos, sPos := Start(d, dStride, i), Start(s, sStride, i);
      ghost var piece := src[sPos..sPos + elSize];
      assert piece == from[sPos..sPos + elSize];
      CopyNext(was, d, dStride, from, s, sStride, i, elSize, piece);
      CopyBytes(dest, dPos, src, sPos, elSize);
    }
  }

  lemma CopyNext<T>(d: seq<T>, dOff: nat, dStride: nat, s: seq<T>, sOff: nat, sStride: nat, i: nat, elSize: nat,
                    piece: seq<T>)
    requires Fits(|d|, dOff, dStride, i + 1, elSize) && Fits(|s|, sOff, sStride, i + 1, elSize)
    requires Start(sOff, sStride, i) + elSize <= |s| && Start(dOff, dStride, i) + elSize <= |d|
    requires piece == s[Start(sOff, sStride, i)..Start(sOff, sStride, i) + elSize]
    ensures Fits(|d|, dOff, dStride, i, elSize) && Fits(|s|, sOff, sStride, i, elSize)
    ensures CopyElements(d, dOff, dStride, s, sOff, sStride, i + 1, elSize)
         == Splice(CopyElements(d, dOff, dStride, s, sOff, sStride, i, elSize), Start(dOff, dStride, i), piece)
  {
    hide Start, CopyElements, Splice;
    CopyElementsPush(d, dOff, dStride, s, sOff, sStride, i + 1, elSize);
  }

  lemma CopyNone<T>(d: seq<T>, dOff: nat, dStride: nat, s: seq<T>, sOff: nat, sStride: nat, elSize: nat)
    requires Fits(|d|, dOff, dStride, 0, elSize) && Fits(|s|, sOff, sStride, 0, elSize)
    ensures CopyElements(d, dOff, dStride, s, sOff, sStride, 0, elSize) == d
  {}

  lemma FitsNext(length: nat, offset: nat, stride: nat, n: nat, elSize: nat, i: nat)
    requires Fits(length, offset, stride, n, elSize) && i < n
    ensures Fits(length, offset, stride, i + 1, elSize) && Start(offset, stride, i) + elSize <= length
  {
    hide Start;
    FitsPrefix(length, offset, stride, n, elSize, i);
    if i + 1 < n { FitsPrefix(length, offset, stride, n, elSize, i + 1); }
  }

  method StridedMemcpy(dest: array<byte>, d: nat, dStride: nat,
                       src: array<byte>, s: nat, sStride: nat, numEl: nat, elSize: nat)
    requires dest != src && 0 < elSize
    requires Fits(dest.Length, d, dStride, numEl, elSize)
    requires Fits(src.Length, s, sStride, numEl, elSize)
    requires TakesMask(dStride, sStride, elSize) ==>
      && dStride <= MAX_STRIDE
      && Start(d, dStride, numEl) <= dest.Length && Start(s, sStride, numEl) <= src.Length
    modifies dest
    ensures if elSize < dStride == sStride <= elSize + 128
      then dest[..] == MaskedCopy(old(dest[..]), d, src[..], s, Start(0, dStride, numEl), elSize)
      else dest[..] == CopyElements(old(dest[..]), d, dStride, src[..], s, sStride, numEl, elSize)
  {
    hide Start;
    StartIsProduct(0, elSize, numEl);
    StartChain(d, dStride, numEl);
    StartChain(s, sStride, numEl);
    if dStride - elSize > MAX_STRIDE || sStride - elSize > MAX_STRIDE || dStride != sStride {
      CopyEach(dest, d, dStride, src, s, sStride, numEl, elSize);
    } else if dStride == elSize {
      ContiguousIsBlock(dest[..], d, src[..], s, numEl, elSize, numEl * elSize);
      CopyBytes(dest, d, src, s, numEl * elSize);
    } else {
      StridedMemcpySameStride(dest, d, src, s, numEl, elSize, dStride);
    }
  }

  /** Which strides and counts the masked loop copies correctly: at most one element, or
      elements that are exactly one mask apart. */
  predicate MaskExact(stride: nat, n: nat) {
    n <= 1 || stride == MAX_STRIDE
  }

  /** The last element of a run that ends within one mask of a multiple of 128. */
  lemma MaskedBlock<T>(d: seq<T>, dOff: nat, s: seq<T>, sOff: nat, m: nat, elSize: nat, stride: nat,
                       pos: nat, x: seq<T>, first: seq<T>, both: seq<T>)
    requires elSize <= stride <= MAX_STRIDE && m % MAX_STRIDE == 0
    requires dOff + m + stride <= |d| && sOff + m + stride <= |s|
    requires pos == dOff + m && x == s[sOff + m..sOff + m + elSize]
    requires first == MaskedCopy(d, dOff, s, sOff, m, elSize) && both == Splice(first, pos, x)
    ensures both == MaskedCopy(d, dOff, s, sOff, m + stride, elSize)
  {
    forall i | m <= i < m + stride && i < m + MAX_STRIDE ensures i % MAX_STRIDE == i - m {}
  }

  lemma MaskAligned(stride: nat, n: nat)
    requires MaskExact(stride, n) && n > 0
    ensures Start(0, stride, n - 1) % MAX_STRIDE == 0
  {}

  lemma {:induction false} MaskedIsElements<T>(d: seq<T>, dOff: nat, s: seq<T>, sOff: nat,
                                               n: nat, elSize: nat, stride: nat)
    requires 0 < elSize <= stride <= MAX_STRIDE && MaskExact(stride, n)
    requires dOff + Start(0, stride, n) <= |d| && sOff + Start(0, stride, n) <= |s|
    requires Fits(|d|, dOff, stride, n, elSize) && Fits(|s|, sOff, stride, n, elSize)
    ensures CopyElements(d, dOff, stride, s, sOff, stride, n, elSize)
         == MaskedCopy(d, dOff, s, sOff, Start(0, stride, n), elSize)
  {
    hide Start, CopyElements, MaskedCopy, Splice;
    StartZero(0, stride);
    if n == 0 {
      MaskedNothing(d, dOff, stride, s, sOff, elSize);
    } else {
      var m := Start(0, stride, n - 1);
      CopyElementsPush(d, dOff, stride, s, sOff, stride, n, elSize);
      FitsPrefix(|s|, sOff, stride, n, elSize, n - 1);
      StartChain(0, stride, n - 1);
      StartChain(dOff, stride, n - 1);
      StartChain(sOff, stride, n - 1);
      MaskAligned(stride, n);
      MaskedIsElements(d, dOff, s, sOff, n - 1, elSize, stride);
      MaskedBlock(d, dOff, s, sOff, m, elSize, stride,
                  Start(dOff, stride, n - 1), Element(s, sOff, stride, n, elSize, n - 1),
                  CopyElements(d, dOff, stride, s, sOff, stride, n - 1, elSize),
                  CopyElements(d, dOff, stride, s, sOff, stride, n, elSize));
    }
  }

  lemma MaskedNothing<T>(d: seq<T>, dOff: nat, stride: nat, s: seq<T>, sOff: nat, elSize: nat)
    requires Fits(|d|, dOff, stride, 0, elSize) && Fits(|s|, sOff, stride, 0, elSize)
    ensures CopyElements(d, dOff, stride, s, sOff, stride, 0, elSize) == MaskedCopy(d, dOff, s, sOff, 0, elSize)
  {}

  /** The masked loop copies exactly the element bytes, for all contents of the two buffers, if
      and only if `MaskExact` holds. Otherwise it skips the first byte of the second element. */
  lemma MaskedExactIff(n: nat, elSize: nat, stride: nat)
    requires 0 < elSize < stride <= MAX_STRIDE
    ensures MaskExact(stride, n) <==>
      forall d: seq<byte>, s: seq<byte> ::
        && Start(0, stride, n) <= |d| && Start(0, stride, n) <= |s|
        && Fits(|d|, 0, stride, n, elSize) && Fits(|s|, 0, stride, n, elSize) ==>
          MaskedCopy(d, 0, s, 0, Start(0, stride, n), elSize)
          == CopyElements(d, 0, stride, s, 0, stride, n, elSize)
  {
    if MaskExact(stride, n) {
      forall d: seq<byte>, s: seq<byte> |
        && Start(0, stride, n) <= |d| && Start(0, stride, n) <= |s|
        && Fits(|d|, 0, stride, n, elSize) && Fits(|s|, 0, stride, n, elSize)
        ensures MaskedCopy(d, 0, s, 0, Start(0, stride, n), elSize)
             == CopyElements(d, 0, stride, s, 0, stride, n, elSize)
      {
        MaskedIsElements(d, 0, s, 0, n, elSize, stride);
      }
    } else {
      var d: seq<byte> := seq(stride * n, i => 0);
      var s: seq<byte> := seq(stride * n, i => 1);
      assert stride * n == stride * (n - 1) + stride;
      assert stride * (n - 1) == stride + stride * (n - 2);
      CopyElementsExact(d, 0, stride, s, 0, stride, n, elSize);
      var r := CopyElements(d, 0, stride, s, 0, stride, n, elSize);
      assert Element(r, 0, stride, n, elSize, 1) == Element(s, 0, stride, n, elSize, 1);
      FitsPrefix(|d|, 0, stride, n, elSize, 1);
      assert Start(0, stride, 1) == stride;
      assert Element(r, 0, stride, n, elSize, 1)[0] == r[stride];
      assert MaskedCopy(d, 0, s, 0, Start(0, stride, n), elSize)[stride] == 0;
    }
  }
}
