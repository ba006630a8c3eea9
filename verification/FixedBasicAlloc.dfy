/** The allocator of `kallok/fixed_basic.c`: chunks of one header byte and 32 data bytes in one
    buffer, which also holds what the clients write. Blocks here take a single chunk. */
module FixedBasicAlloc {
  import opened Bytes
  import opened Options

  const DATA: nat := 32
  const CHUNK: nat := 33

  // ---- Rounding ---------------------------------------------------------------------------

  function MakeMultiple(x: nat, y: nat): nat
    requires y > 0
  {
    if x == 0 then 0 else x + y - 1 - (x + y - 1) % y
  }

  /** The least multiple of `y` that is not below `x`. */
  lemma MakeMultipleIsLeast(x: nat, y: nat, k: nat)
    requires y > 0
    ensures MakeMultiple(x, y) % y == 0 && x <= MakeMultiple(x, y) < x + y
    ensures x <= k * y ==> MakeMultiple(x, y) <= k * y
  {
    if x > 0 {
      var n := x + y - 1;
      var q := n / y;
      assert n == q * y + n % y;
      assert (q * y) % y == 0 by { MultipleIsExact(q, y); }
      if x <= k * y && q * y > k * y { MultiplesApart(k, q, y); }
    }
  }

  lemma MultipleIsExact(q: nat, y: nat)
    requires y > 0
    ensures (q * y) % y == 0
  {
    var r := (q * y) % y;
    var d := (q * y) / y;
    assert q * y == d * y + r;
    assert (q - d) * y == r;
    assert q - d >= 1 ==> (q - d) * y >= y;
    assert d - q >= 1 ==> (d - q) * y >= y;
  }

  lemma MultiplesApart(k: nat, q: nat, y: nat)
    requires q * y > k * y
    ensures q * y >= k * y + y
  {
    assert q <= k ==> (k - q) * y >= 0;
    assert (q - k - 1) * y >= 0;
  }

  // ---- State ------------------------------------------------------------------------------

  /** The buffer and the search hint, with the sizes of the blocks the client holds and the
      chunks that were given back without becoming free. */
  datatype State = State(len: nat, next: nat, buf: seq<byte>, held: map<nat, nat>, leaked: set<nat>)

  predicate Wf(s: State) { |s.buf| == CHUNK * s.len && s.next <= s.len }

  function Header(s: State, i: nat): byte
    requires Wf(s) && i < s.len
  {
    s.buf[CHUNK * i]
  }

  function DataAt(i: nat): nat { CHUNK * i + 1 }

  function Data(s: State, i: nat): seq<byte>
    requires Wf(s) && i < s.len
  {
    s.buf[DataAt(i)..DataAt(i) + DATA]
  }

  /** The first unused chunk from `from` on, or the end. */
  function FirstFree(s: State, from: nat): (i: nat)
    requires Wf(s) && from <= s.len
    ensures from <= i <= s.len && (i < s.len ==> Header(s, i) == 0)
    ensures forall j :: from <= j < i ==> Header(s, j) != 0
    decreases s.len - from
  {
    if from == s.len || Header(s, from) == 0 then from else FirstFree(s, from + 1)
  }

  /** The request is checked against the chunk index, then placed in the first unused chunk. */
  function Alloc(s: State, bytes: nat): (State, Option<nat>)
    requires Wf(s) && bytes <= CHUNK
  {
    if s.next + bytes > s.len || bytes == 0 then (s, None)
    else
      var c := FirstFree(s, s.next);
      if c == s.len then (s, None)
      else
        var after := FirstFree(s, c + 1);
        (s.(buf := s.buf[CHUNK * c := 1], next := if after < s.len then after else s.next,
            held := s.held[c := bytes]), Some(DataAt(c)))
  }

  /** Where a pointer may point that is given back: into a chunk's data, or elsewhere altogether. */
  predicate Freeable(s: State, p: int) {
    p < 0 || p > s.len || p % CHUNK == 1
  }

  /** The range check counts bytes, so only chunks near the start are freed. */
  function Free(s: State, p: int): State
    requires Wf(s) && Freeable(s, p)
  {
    if p < 0 then s
    else if p > s.len then
      if p % CHUNK == 1 && p / CHUNK in s.held
      then s.(held := s.held - {p / CHUNK}, leaked := s.leaked + {p / CHUNK}) else s
    else
      var c := p / CHUNK;
      s.(buf := s.buf[CHUNK * c := 0], next := if c < s.next then c else s.next, held := s.held - {c})
  }

  lemma DataInside(s: State, i: nat)
    requires Wf(s) && i < s.len
    ensures DataAt(i) + DATA <= |s.buf| && Freeable(s, DataAt(i))
  {
    MultiplesApart(i, s.len, CHUNK);
  }

  lemma AllocInside(s: State, bytes: nat)
    requires Wf(s) && bytes <= CHUNK
    ensures var (t, r) := Alloc(s, bytes);
            Wf(t) && t.len == s.len && (r.Some? ==> r.value + DATA <= |t.buf|)
  {
    var c := FirstFree(s, s.next);
    if c < s.len { DataInside(s, c); }
  }

  function Realloc(s: State, i: nat, bytes: nat): (State, Option<nat>)
    requires Wf(s) && i < s.len && i in s.held && s.held[i] <= DATA && bytes <= DATA
  {
    AllocInside(s, bytes);
    DataInside(s, i);
    var (t, r) := Alloc(s, bytes);
    match r
    case None => (s, None)
    case Some(p) =>
      var u := t.(buf := Splice(t.buf, p, t.buf[DataAt(i)..DataAt(i) + s.held[i]]));
      (Free(u, DataAt(i)), r)
  }

  function Write(s: State, i: nat, k: nat, b: byte): State
    requires Wf(s) && i < s.len && k < DATA
  {
    s.(buf := s.buf[DataAt(i) + k := b])
  }

  // ---- Invariant --------------------------------------------------------------------------

  predicate InUse(s: State, i: nat) { i in s.held || i in s.leaked }

  /** One chunk: its header says whether it is in use, and so are all chunks before the hint;
      a chunk that was given back and is still in use lies past the range check. */
  predicate ChunkOk(s: State, i: nat)
    requires Wf(s) && i < s.len
  {
    && Header(s, i) == (if InUse(s, i) then 1 else 0)
    && (i < s.next ==> InUse(s, i))
    && (i in s.leaked ==> i !in s.held && DataAt(i) > s.len)
    && (i in s.held ==> 0 < s.held[i] <= DATA)
  }

  ghost predicate Inv(s: State) {
    && Wf(s)
    && (forall i: nat :: i < s.len ==> ChunkOk(s, i))
    && (forall i: nat :: InUse(s, i) ==> i < s.len)
  }

  lemma ChunksInOrder(i: nat, j: nat)
    ensures i < j ==> DataAt(i) + DATA <= CHUNK * j
    ensures CHUNK * i < DataAt(i)
  {}

  lemma SliceOutside(b: seq<byte>, at: nat, x: seq<byte>, from: nat, n: nat)
    requires at + |x| <= |b| && from + n <= |b|
    requires at + |x| <= from || from + n <= at
    ensures Splice(b, at, x)[from..from + n] == b[from..from + n]
  {}

  /** Headers and data do not overlap. */
  lemma SetHeader(s: State, c: nat, h: byte, t: State)
    requires Wf(s) && c < s.len && t.len == s.len && t.buf == s.buf[CHUNK * c := h] && t.next <= t.len
    ensures forall i: nat :: i < s.len ==> Header(t, i) == if i == c then h else Header(s, i)
    ensures forall i: nat :: i < s.len ==> Data(t, i) == Data(s, i)
  {
    assert t.buf == Splice(s.buf, CHUNK * c, [h]);
    forall i: nat | i < s.len ensures Data(t, i) == Data(s, i) {
      ChunksInOrder(i, c);
      ChunksInOrder(c, i);
      SliceOutside(s.buf, CHUNK * c, [h], DataAt(i), DATA);
    }
  }

  /** Bytes written inside the data of chunk `c` change that data only. */
  lemma SetData(s: State, c: nat, k: nat, x: seq<byte>, t: State)
    requires Wf(s) && c < s.len && k + |x| <= DATA
    requires t.len == s.len && t.next <= t.len
    requires DataAt(c) + DATA <= |s.buf| && t.buf == Splice(s.buf, DataAt(c) + k, x)
    ensures forall i: nat :: i < s.len ==> Header(t, i) == Header(s, i)
    ensures forall i: nat :: i < s.len && i != c ==> Data(t, i) == Data(s, i)
    ensures Data(t, c) == Splice(Data(s, c), k, x)
  {
    forall i: nat | i < s.len ensures Header(t, i) == Header(s, i) {
      ChunksInOrder(i, c);
      ChunksInOrder(c, i);
    }
    forall i: nat | i < s.len && i != c ensures Data(t, i) == Data(s, i) {
      ChunksInOrder(i, c);
      ChunksInOrder(c, i);
      SliceOutside(s.buf, DataAt(c) + k, x, DataAt(i), DATA);
    }
  }

  // ---- One operation ----------------------------------------------------------------------

  ghost predicate SomeFree(s: State)
    requires Wf(s)
  {
    exists i: nat :: i < s.len && Header(s, i) == 0
  }

  lemma NothingBeforeHint(s: State)
    requires Inv(s)
    ensures SomeFree(s) <==> FirstFree(s, s.next) < s.len
    ensures forall j: nat :: j < FirstFree(s, s.next) ==> InUse(s, j)
  {
    var first := FirstFree(s, s.next);
    forall j: nat | j < first ensures InUse(s, j) { assert ChunkOk(s, j); }
    if j: nat :| j < s.len && Header(s, j) == 0 { assert ChunkOk(s, j); }
  }

  /** An allocation finds the lowest unused chunk. It succeeds exactly when one exists and the
      request, counted in chunks from the hint, stays inside the buffer. */
  lemma AllocKeeps(s: State, bytes: nat)
    requires Inv(s) && bytes <= DATA
    ensures var (t, r) := Alloc(s, bytes);
            && Inv(t) && t.leaked == s.leaked && t.len == s.len
            && (r.Some? <==> 0 < bytes && s.next + bytes <= s.len && SomeFree(s))
            && (forall i: nat :: i < s.len ==> Data(t, i) == Data(s, i))
            && match r
               case None => t == s
               case Some(p) =>
                 exists c: nat :: c < s.len && p == DataAt(c) && Taken(s, bytes, c, t)
  {
    NothingBeforeHint(s);
    var (t, r) := Alloc(s, bytes);
    if r.Some? {
      var c := FirstFree(s, s.next);
      assert ChunkOk(s, c);
      SetHeader(s, c, 1, t);
      forall i: nat | i < s.len ensures ChunkOk(t, i) { assert ChunkOk(s, i); }
      forall i: nat | InUse(t, i) ensures i < s.len { assert InUse(s, i) || i == c; }
      HintMoves(s, c, t.next);
      assert LowestUnused(s, c);
    }
  }

  ghost predicate LowestUnused(s: State, c: nat) {
    !InUse(s, c) && forall j: nat :: j < c ==> InUse(s, j)
  }

  /** Chunk `c` is taken, and the hint moves to the first unused chunk after it, if there is one. */
  ghost predicate Taken(s: State, bytes: nat, c: nat, t: State) {
    LowestUnused(s, c) && t.held == s.held[c := bytes] && HintAfter(s, c, t.next)
  }

  ghost predicate HintAfter(s: State, c: nat, next: nat) {
    || (next == s.next && forall j: nat :: c < j < s.len ==> InUse(s, j))
    || (c < next < s.len && !InUse(s, next) && forall j: nat :: c < j < next ==> InUse(s, j))
  }

  lemma HintMoves(s: State, c: nat, next: nat)
    requires Inv(s) && c < s.len
    requires next == var after := FirstFree(s, c + 1); if after < s.len then after else s.next
    ensures HintAfter(s, c, next)
  {
    forall j: nat | j < s.len ensures Header(s, j) == 0 <==> !InUse(s, j) { assert ChunkOk(s, j); }
  }

  /** Where headers and data lie. */
  lemma Layout(s: State, i: nat)
    requires Wf(s) && i < s.len
    ensures |s.buf| == 33 * s.len && DataAt(i) == 33 * i + 1
    ensures Header(s, i) == s.buf[33 * i] && Data(s, i) == s.buf[33 * i + 1..33 * i + 33]
  {}

  /** Giving a pointer back frees its chunk, unless the range check refuses it; then a held chunk
      stays in use for good. */
  lemma FreeKeeps(s: State, p: int)
    requires Inv(s) && Freeable(s, p)
    ensures var t := Free(s, p);
            && Inv(t)
            && (forall i: nat :: i < s.len ==> Data(t, i) == Data(s, i))
            && (forall i: nat :: i in s.held && DataAt(i) != p ==> i in t.held && t.held[i] == s.held[i])
            && (forall i: nat :: InUse(t, i) <==> InUse(s, i) && !(DataAt(i) == p && DataAt(i) <= s.len))
            && (forall i: nat :: i in t.held <==> i in s.held && DataAt(i) != p)
            && t.next == (if 0 <= p <= s.len && p / CHUNK < s.next then p / CHUNK else s.next)
  {
    var t := Free(s, p);
    assert p >= 0 && p % CHUNK == 1 ==> p == DataAt(p / CHUNK);
    if 0 <= p <= s.len {
      var c := p / CHUNK;
      assert ChunkOk(s, c);
      SetHeader(s, c, 0, t);
    }
    forall i: nat | i < s.len ensures ChunkOk(t, i) { assert ChunkOk(s, i); }
    forall i: nat | InUse(t, i) ensures i < s.len { assert InUse(s, i); }
  }

  lemma WriteKeeps(s: State, i: nat, k: nat, b: byte)
    requires Inv(s) && i < s.len && i in s.held && k < DATA
    ensures Inv(Write(s, i, k, b))
    ensures forall j: nat :: j < s.len && j != i ==> Data(Write(s, i, k, b), j) == Data(s, j)
    ensures Data(Write(s, i, k, b), i) == Data(s, i)[k := b]
  {
    var t := Write(s, i, k, b);
    assert t.buf == Splice(s.buf, DataAt(i) + k, [b]);
    SetData(s, i, k, [b], t);
    assert Splice(Data(s, i), k, [b]) == Data(s, i)[k := b];
    forall j: nat | j < s.len ensures ChunkOk(t, j) { assert ChunkOk(s, j); }
    forall j: nat | InUse(t, j) ensures j < s.len { assert InUse(s, j); }
  }

  /** The allocator is empty exactly when every chunk was given back and accepted. */
  lemma EmptyIff(s: State)
    requires Inv(s)
    ensures (forall i: nat :: i < s.len ==> Header(s, i) == 0) <==> s.held == map[] && s.leaked == {}
  {
    if i: nat :| i < s.len && Header(s, i) != 0 { assert ChunkOk(s, i); }
    if i :| i in s.held { assert InUse(s, i) && ChunkOk(s, i); }
    if i :| i in s.leaked { assert InUse(s, i) && ChunkOk(s, i); }
  }

  /** A block that moves keeps its bytes, and no other block changes. */
  lemma ReallocKeeps(s: State, i: nat, bytes: nat)
    requires Inv(s) && i < s.len && i in s.held && s.held[i] <= DATA && bytes <= DATA
    ensures var (t, r) := Realloc(s, i, bytes);
            && Inv(t) && (r.Some? <==> 0 < bytes && s.next + bytes <= s.len && SomeFree(s))
            && match r
               case None => t == s
               case Some(p) => exists c: nat :: c < s.len && p == DataAt(c) && Moved(s, i, bytes, c, t)
  {
    hide ChunkOk, Alloc, Free, SomeFree, LowestUnused;
    AllocKeeps(s, bytes);
    var (t, r) := Alloc(s, bytes);
    if r.Some? {
      var c: nat :| c < s.len && r.value == DataAt(c) && Taken(s, bytes, c, t);
      MoveKeeps(s, i, bytes, c, t);
    }
  }

  ghost predicate Moved(s: State, i: nat, bytes: nat, c: nat, t: State)
    requires Wf(s) && i < s.len && i in s.held && s.held[i] <= DATA && c < s.len
  {
    && Wf(t) && t.len == s.len && LowestUnused(s, c) && t.held == s.held[c := bytes] - {i}
    && (forall j: nat :: InUse(t, j) <==> j == c || (InUse(s, j) && !(j == i && DataAt(i) <= s.len)))
    && (exists next :: HintAfter(s, c, next) && t.next == if DataAt(i) <= s.len && i < next then i else next)
    && Data(t, c)[..s.held[i]] == Data(s, i)[..s.held[i]]
    && forall j: nat :: j < s.len && j != c ==> Data(t, j) == Data(s, j)
  }

  lemma CopyKeeps(s: State, c: nat, x: seq<byte>, t: State)
    requires Inv(s) && c < s.len && |x| <= DATA && DataAt(c) + DATA <= |s.buf|
    requires t == s.(buf := Splice(s.buf, DataAt(c), x))
    ensures Inv(t) && Data(t, c)[..|x|] == x
    ensures forall j: nat :: j < s.len && j != c ==> Data(t, j) == Data(s, j)
  {
    SetData(s, c, 0, x, t);
    forall j: nat | j < s.len ensures ChunkOk(t, j) { assert ChunkOk(s, j); }
    forall j: nat | InUse(t, j) ensures j < s.len { assert InUse(s, j); }
  }

  lemma MoveKeeps(s: State, i: nat, bytes: nat, c: nat, t: State)
    requires Inv(s) && i < s.len && i in s.held && s.held[i] <= DATA && bytes <= DATA
    requires Inv(t) && t.len == s.len && Alloc(s, bytes) == (t, Some(DataAt(c)))
    requires c < s.len && Taken(s, bytes, c, t) && t.leaked == s.leaked
    requires forall j: nat :: j < s.len ==> Data(t, j) == Data(s, j)
    ensures Inv(Realloc(s, i, bytes).0) && Moved(s, i, bytes, c, Realloc(s, i, bytes).0)
  {
    hide ChunkOk, Alloc, Free, SomeFree;
    var n := s.held[i];
    var x := t.buf[DataAt(i)..DataAt(i) + n];
    ChunksInOrder(c, t.len);
    var u := t.(buf := Splice(t.buf, DataAt(c), x));
    CopyKeeps(t, c, x, u);
    FreeKeeps(u, DataAt(i));
    FreeHeld(u, i);
    DataPrefix(t, i, n);
    assert Data(t, i) == Data(s, i);
    assert InUse(s, i) && DataAt(i) / CHUNK == i;
    assert HintAfter(s, c, t.next);
  }

  lemma DataPrefix(s: State, i: nat, n: nat)
    requires Wf(s) && i < s.len && n <= DATA
    ensures DataAt(i) + n <= |s.buf| && s.buf[DataAt(i)..DataAt(i) + n] == Data(s, i)[..n]
  {}

  /** Whether or not its chunk becomes free, a block given back is no longer held. */
  lemma FreeHeld(s: State, i: nat)
    requires Inv(s) && i < s.len
    ensures Free(s, DataAt(i)).held == s.held - {i} && Free(s, DataAt(i)).len == s.len
  {
    assert DataAt(i) % CHUNK == 1 && DataAt(i) / CHUNK == i;
  }

  // ---- Runs -------------------------------------------------------------------------------

  datatype Event =
    | DoAlloc(bytes: nat)
    | DoFree(p: int)
    | DoRealloc(i: nat, bytes: nat)
    | DoWrite(i: nat, k: nat, b: byte)

  predicate Legal(s: State, e: Event) {
    match e
    case DoAlloc(bytes) => bytes <= DATA
    case DoFree(p) => Freeable(s, p)
    case DoRealloc(i, bytes) => i in s.held && bytes <= DATA
    case DoWrite(i, k, _) => i in s.held && k < DATA
  }

  /** The guards hold in every state that a legal run reaches. */
  function Apply(s: State, e: Event): State {
    if !Wf(s) then s
    else match e
         case DoAlloc(bytes) => if bytes <= DATA then Alloc(s, bytes).0 else s
         case DoFree(p) => if Freeable(s, p) then Free(s, p) else s
         case DoRealloc(i, bytes) =>
           if i < s.len && i in s.held && s.held[i] <= DATA && bytes <= DATA then Realloc(s, i, bytes).0 else s
         case DoWrite(i, k, b) => if i < s.len && k < DATA then Write(s, i, k, b) else s
  }

  lemma HeldInside(s: State, i: nat)
    requires Inv(s) && i in s.held
    ensures i < s.len && s.held[i] <= DATA
  {
    assert InUse(s, i) && ChunkOk(s, i);
  }

  predicate Mentions(e: Event, i: nat) {
    match e
    case DoAlloc(_) => false
    case DoFree(p) => p == DataAt(i)
    case DoRealloc(j, _) => j == i
    case DoWrite(j, _, _) => j == i
  }

  /** One event keeps the invariant, and a block the event does not mention. */
  lemma EventKeeps(s: State, e: Event, i: nat)
    requires Inv(s) && Legal(s, e)
    ensures Inv(Apply(s, e)) && Apply(s, e).len == s.len
    ensures i in s.held && !Mentions(e, i) ==> i < s.len && SameBlock(s, Apply(s, e), i)
  {
    hide ChunkOk, Alloc, Free, Realloc, Write;
    if i in s.held { HeldInside(s, i); }
    match e
    case DoAlloc(bytes) =>
      AllocKeeps(s, bytes);
      LenFixed(s, bytes, -1);
    case DoFree(p) =>
      FreeKeeps(s, p);
      LenFixed(s, 0, p);
    case DoRealloc(j, bytes) =>
      HeldInside(s, j);
      ReallocKeeps(s, j, bytes);
    case DoWrite(j, k, b) =>
      HeldInside(s, j);
      WriteKeeps(s, j, k, b);
      WriteHeld(s, j, k, b);
  }

  predicate SameBlock(s: State, t: State, i: nat)
    requires Wf(s) && i < s.len && i in s.held
  {
    Wf(t) && t.len == s.len && i in t.held && t.held[i] == s.held[i] && Data(t, i) == Data(s, i)
  }

  lemma LenFixed(s: State, bytes: nat, p: int)
    requires Wf(s) && bytes <= DATA && Freeable(s, p)
    ensures Alloc(s, bytes).0.len == s.len && Free(s, p).len == s.len
  {}

  lemma WriteHeld(s: State, i: nat, k: nat, b: byte)
    requires Wf(s) && i < s.len && k < DATA
    ensures Write(s, i, k, b).held == s.held && Write(s, i, k, b).len == s.len
  {}

  predicate LegalRun(s: State, es: seq<Event>)
    decreases |es|
  {
    es == [] || (Legal(s, es[0]) && LegalRun(Apply(s, es[0]), es[1..]))
  }

  function Run(s: State, es: seq<Event>): State
    decreases |es|
  {
    if es == [] then s else Run(Apply(s, es[0]), es[1..])
  }

  /** What an event does to the chunks, to the hint and to what the client holds. */
  lemma EventMeans(s: State, e: Event)
    requires Inv(s) && Legal(s, e)
    ensures Wf(Apply(s, e))
    ensures e.DoAlloc? ==>
              if 0 < e.bytes && s.next + e.bytes <= s.len && SomeFree(s)
              then exists c: nat :: c < s.len && Taken(s, e.bytes, c, Apply(s, e))
              else Apply(s, e) == s
    ensures e.DoFree? ==>
              && (forall i: nat :: InUse(Apply(s, e), i) <==>
                    InUse(s, i) && !(DataAt(i) == e.p && DataAt(i) <= s.len))
              && (forall i: nat :: i in Apply(s, e).held <==> i in s.held && DataAt(i) != e.p)
    ensures e.DoRealloc? ==>
              && e.i < s.len && s.held[e.i] <= DATA
              && if 0 < e.bytes && s.next + e.bytes <= s.len && SomeFree(s)
                 then exists c: nat :: c < s.len && Moved(s, e.i, e.bytes, c, Apply(s, e))
                 else Apply(s, e) == s
    ensures e.DoWrite? ==>
              && e.i < s.len && Apply(s, e) == s.(buf := Apply(s, e).buf)
              && Data(Apply(s, e), e.i) == Data(s, e.i)[e.k := e.b]
  {
    hide ChunkOk, Alloc, Free, Realloc, Taken, Moved, InUse, SomeFree;
    match e {
      case DoAlloc(bytes) => AllocKeeps(s, bytes);
      case DoFree(p) => FreeKeeps(s, p);
      case DoRealloc(i, bytes) =>
        HeldInside(s, i);
        ReallocKeeps(s, i, bytes);
      case DoWrite(i, k, b) =>
        HeldInside(s, i);
        WriteKeeps(s, i, k, b);
    }
  }

  /** A run of no events changes nothing, and a run's last event happens to what the run before
      it has left. */
  lemma {:induction false} RunPush(s: State, es: seq<Event>, e: Event)
    ensures Run(s, []) == s && Run(s, es + [e]) == Apply(Run(s, es), e)
    ensures LegalRun(s, es + [e]) <==> LegalRun(s, es) && Legal(Run(s, es), e)
    decreases |es|
  {
    hide Legal, Apply;
    if es == [] {
      assert es + [e] == [e] && [e][1..] == [];
    } else {
      assert (es + [e])[1..] == es[1..] + [e];
      RunPush(Apply(s, es[0]), es[1..], e);
    }
  }

  /** What every run keeps, and what a run keeps of a block it does not mention. */
  lemma {:induction false} RunKeeps(s: State, es: seq<Event>, i: nat)
    requires Inv(s) && LegalRun(s, es)
    ensures Inv(Run(s, es)) && Run(s, es).len == s.len
    ensures i in s.held && (forall k :: 0 <= k < |es| ==> !Mentions(es[k], i)) ==>
              i < s.len && SameBlock(s, Run(s, es), i)
    decreases |es|
  {
    hide Inv, Legal, Apply;
    if i in s.held { HeldInside(s, i); }
    if es == [] {
      SameBlockSelf(s, i);
    } else {
      EventKeeps(s, es[0], i);
      RunKeeps(Apply(s, es[0]), es[1..], i);
    }
  }

  lemma SameBlockSelf(s: State, i: nat)
    requires Inv(s)
    ensures i in s.held ==> i < s.len && SameBlock(s, s, i)
  {
    if i in s.held { HeldInside(s, i); }
  }

  /** A buffer of `len` chunks as it is handed over, with no header set. */
  predicate Fresh(s: State) {
    && |s.buf| == CHUNK * s.len && s.next == 0 && s.held == map[] && s.leaked == {}
    && forall i: nat :: i < s.len ==> s.buf[CHUNK * i] == 0
  }

  lemma FreshInv(s: State)
    requires Fresh(s)
    ensures Inv(s)
  {
    forall i: nat | i < s.len ensures ChunkOk(s, i) {}
  }

  /** From a fresh buffer: the headers say exactly which chunks are in use, every chunk before the
      hint is, and the allocator counts as empty exactly when nothing is held and nothing leaked. */
  lemma RunSafe(s: State, es: seq<Event>)
    requires Fresh(s) && LegalRun(s, es)
    ensures var t := Run(s, es);
            && Wf(t) && t.len == s.len
            && (forall i: nat :: i < t.next ==> InUse(t, i))
            && (forall i: nat :: i < t.len ==> (Header(t, i) != 0 <==> InUse(t, i)))
            && (forall i: nat :: i in t.leaked ==> DataAt(i) > t.len)
            && ((forall i: nat :: i < t.len ==> Header(t, i) == 0) <==> t.held == map[] && t.leaked == {})
  {
    FreshInv(s);
    RunKeeps(s, es, 0);
    var t := Run(s, es);
    EmptyIff(t);
    forall i: nat | i < t.len ensures (Header(t, i) != 0 <==> InUse(t, i)) && (i < t.next ==> InUse(t, i)) {
      assert ChunkOk(t, i);
    }
    forall i: nat | i in t.leaked ensures DataAt(i) > t.len { assert InUse(t, i) && ChunkOk(t, i); }
  }

  // ---- Rounding and one chunk -------------------------------------------------------------

  /** The data of the chunks taken for a request, headers of inner chunks included, has room for
      it exactly when the request is no multiple of the chunk size. */
  lemma FitsIff(bytes: nat)
    requires bytes > 0
    ensures bytes <= MakeMultiple(bytes, CHUNK) - 1 <==> bytes % CHUNK != 0
    ensures bytes <= CHUNK ==> MakeMultiple(bytes, CHUNK) / CHUNK == 1
  {
    MakeMultipleIsLeast(bytes, CHUNK, 1);
  }

  // ---- What goes wrong --------------------------------------------------------------------

  function FreshState(len: nat): (s: State)
    ensures Wf(s) && s.len == len && Fresh(s)
  {
    State(len, 0, seq(CHUNK * len, _ => 0), map[], {})
  }

  /** A fresh buffer refuses a request of more bytes than it has chunks, with all chunks free. */
  lemma FreshRefuses(len: nat, bytes: nat)
    requires 0 < len < bytes <= DATA
    ensures Alloc(FreshState(len), bytes).1 == None && SomeFree(FreshState(len))
  {
    assert Header(FreshState(len), 0) == 0;
  }

  /** In a buffer of two chunks the second one is given back in vain. */
  lemma SecondChunkLost()
    ensures var es := [DoAlloc(1), DoAlloc(1), DoFree(DataAt(1))];
            LegalRun(FreshState(2), es) && 1 in Run(FreshState(2), es).leaked
  {
    var s := FreshState(2);
    assert s.buf[0] == 0 && s.buf[33] == 0;
    assert Header(s, 0) == 0 && FirstFree(s, 0) == 0 && FirstFree(s, 1) == 1;
    var t := Apply(s, DoAlloc(1));
    assert Header(t, 0) == 1 && Header(t, 1) == 0 && t.next == 1 && FirstFree(t, 1) == 1;
    var u := Apply(t, DoAlloc(1));
    assert 1 in u.held && u.len == 2;
    var es := [DoAlloc(1), DoAlloc(1), DoFree(DataAt(1))];
    assert es[1..] == [DoAlloc(1), DoFree(DataAt(1))] && es[1..][1..] == [DoFree(DataAt(1))];
    assert [DoFree(DataAt(1))][1..] == [];
  }

  /** A chunk that was given back in vain stays in use in every run. */
  lemma {:induction false} LeakedStays(s: State, es: seq<Event>, i: nat)
    requires Inv(s) && LegalRun(s, es) && i in s.leaked
    ensures i in Run(s, es).leaked
    decreases |es|
  {
    if es == [] {
    } else {
      EventKeeps(s, es[0], i);
      LeakedStep(s, es[0], i);
      LeakedStays(Apply(s, es[0]), es[1..], i);
    }
  }

  lemma LeakedStep(s: State, e: Event, i: nat)
    requires i in s.leaked
    ensures i in Apply(s, e).leaked
  {}

  /** A request of 33 bytes gets one chunk, and its last byte is the next chunk's header. */
  lemma LastByteIsHeader(len: nat, b: byte)
    requires len >= CHUNK
    ensures var (t, r) := Alloc(FreshState(len), CHUNK);
            && r == Some(DataAt(0)) && Wf(t) && t.len == len
            && Header(t.(buf := t.buf[DataAt(0) + CHUNK - 1 := b]), 1) == b
  {
    var s := FreshState(len);
    assert Header(s, 0) == 0 && FirstFree(s, 0) == 0;
    assert DataAt(0) + CHUNK - 1 == CHUNK * 1;
  }

  // ---- The allocator ----------------------------------------------------------------------

  class FixedBasicAllocator {
    const len: nat
    const buf: array<byte>
    var next: nat
    ghost var held: map<nat, nat>
    ghost var leaked: set<nat>

    ghost function Model(): State
      reads this, buf
    {
      State(len, next, buf[..], held, leaked)
    }

    /** The buffer is taken as it is; its headers must be clear. */
    constructor (data: array<byte>, limit: nat)
      requires data.Length == CHUNK * limit
      requires forall i: nat :: i < limit ==> data[CHUNK * i] == 0
      ensures Fresh(Model()) && len == limit && buf == data
    {
      len, buf, next, held, leaked := limit, data, 0, map[], {};
    }

    method IsEmpty() returns (empty: bool)
      requires Inv(Model())
      ensures empty <==> held == map[] && leaked == {}
    {
      EmptyIff(Model());
      var i := 0;
      while i < len
        invariant i <= len
        invariant forall j: nat :: j < i ==> Header(Model(), j) == 0
      {
        if buf[CHUNK * i] > 0 {
          assert Header(Model(), i) != 0;
          return false;
        }
        i := i + 1;
      }
      return true;
    }

    method AllocChunk(bytes: nat) returns (r: Option<nat>)
      requires Inv(Model()) && bytes <= CHUNK
      modifies this, buf
      ensures Model() == Alloc(old(Model()), bytes).0 && r == Alloc(old(Model()), bytes).1
    {
      hide Inv, ChunkOk, Alloc, FirstFree;
      UnfoldHeaders(Model());
      ghost var was := Model();
      if next + bytes > len {
        AllocNone(was, bytes);
        return None;
      }
      var rounded := MakeMultiple(bytes, CHUNK);
      var chunkAmount := rounded / CHUNK;
      if bytes > 0 { FitsIff(bytes); }
      var counter := 0;
      var start := 0;
      var chunk := next;
      while chunk < len
        invariant Model() == was && Wf(was) && next <= chunk <= len
        invariant bytes > 0 ==> counter == 0
        invariant FirstFree(was, next) == FirstFree(was, chunk) || bytes == 0
      {
        FirstFreeStep(was, chunk);
        assert buf[CHUNK * chunk] == Header(was, chunk);
        if buf[CHUNK * chunk] == 0 {
          if counter == 0 { start := chunk; }
          counter := counter + 1;
          if counter == chunkAmount {
            var last := SkipUsed(chunk + 1);
            AllocTaken(was, bytes, start, last);
            r := Take(start, last, chunkAmount, bytes);
            return;
          }
          chunk := chunk + 1;
        } else {
          counter := 0;
          chunk := chunk + buf[CHUNK * chunk] as nat;
        }
      }
      AllocNone(was, bytes);
      return None;
    }

    /** Marks the chunks from `start` on as taken and moves the hint on, if there is a next chunk. */
    method Take(start: nat, last: nat, chunkAmount: nat, ghost bytes: nat) returns (r: Option<nat>)
      requires Wf(Model()) && start < len && last <= len && chunkAmount == 1
      modifies this, buf
      ensures var was := old(Model());
        Model() == was.(buf := was.buf[CHUNK * start := 1], next := if last < len then last else was.next,
                        held := was.held[start := bytes])
      ensures r == Some(DataAt(start))
    {
      if last < len { next := last; }
      buf[CHUNK * start] := chunkAmount as byte;
      held := held[start := bytes];
      return Some(CHUNK * start + 1);
    }

    /** The first unused chunk from `from` on, or the end. */
    method SkipUsed(from: nat) returns (i: nat)
      requires Wf(Model()) && from <= len
      ensures i == FirstFree(Model(), from)
    {
      i := from;
      while i < len
        invariant from <= i <= len && FirstFree(Model(), from) == FirstFree(Model(), i)
      {
        assert buf[CHUNK * i] == Header(Model(), i);
        if buf[CHUNK * i] == 0 { break; }
        i := i + 1;
      }
    }

    method FreePointer(p: int)
      requires Inv(Model()) && Freeable(Model(), p)
      modifies this, buf
      ensures Model() == Free(old(Model()), p)
    {
      if p < 0 { return; }
      ghost var given := p / CHUNK;
      if p > len {
        if p % CHUNK == 1 && given in held { held, leaked := held - {given}, leaked + {given}; }
        return;
      }
      var chunk := (p - 1) / CHUNK;
      assert chunk == given;
      assert ChunkOk(Model(), chunk);
      var i := 0;
      while i < buf[CHUNK * chunk] as nat
        invariant buf[CHUNK * chunk] == 0 || (i == 0 && buf[CHUNK * chunk] == 1)
        invariant buf[..] == old(buf[..]) || buf[..] == old(buf[..])[CHUNK * chunk := 0]
        modifies buf
        decreases buf[CHUNK * chunk] as nat
      {
        buf[CHUNK * (chunk + i)] := 0;
        i := i + 1;
      }
      assert buf[..] == old(buf[..])[CHUNK * chunk := 0];
      held := held - {given};
      if chunk < next { next := chunk; }
    }

    /** Gets a new chunk, copies the old bytes over and gives the old chunk back. */
    method ReallocChunk(i: nat, oldBytes: nat, bytes: nat) returns (r: Option<nat>)
      requires Inv(Model()) && i < len && i in held && held[i] == oldBytes <= DATA && bytes <= DATA
      modifies this, buf
      ensures Model() == Realloc(old(Model()), i, bytes).0 && r == Realloc(old(Model()), i, bytes).1
    {
      hide Inv, Alloc, Free, Realloc, Freeable, Wf;
      ReallocSteps(Model(), i, bytes);
      r := AllocChunk(bytes);
      if r.Some? { MoveOver(i, oldBytes, r.value); }
    }

    /** Copies the data of chunk `i` to `dest` and gives the chunk back. */
    method MoveOver(i: nat, oldBytes: nat, dest: nat)
      requires dest + DATA <= buf.Length && DataAt(i) + DATA <= buf.Length && oldBytes <= DATA
      requires dest + DATA <= DataAt(i) || DataAt(i) + DATA <= dest
      requires var u := Model().(buf := Splice(buf[..], dest, buf[..][DataAt(i)..DataAt(i) + oldBytes]));
        Inv(u) && Freeable(u, DataAt(i))
      modifies this, buf
      ensures var u := old(Model().(buf := Splice(buf[..], dest, buf[..][DataAt(i)..DataAt(i) + oldBytes])));
        Model() == Free(u, DataAt(i))
    {
      hide Inv, Free, Freeable, Splice;
      ghost var u := Model().(buf := Splice(buf[..], dest, buf[..][DataAt(i)..DataAt(i) + oldBytes]));
      CopyData(dest, DataAt(i), oldBytes);
      assert Model() == u;
      FreePointer(DataAt(i));
    }

    method CopyData(dest: nat, src: nat, n: nat)
      requires dest + n <= src || src + n <= dest
      requires dest + n <= buf.Length && src + n <= buf.Length
      modifies buf
      ensures buf[..] == Splice(old(buf[..]), dest, old(buf[..])[src..src + n])
    {
      for k := 0 to n
        invariant forall j :: dest <= j < dest + k ==> buf[j] == old(buf[..])[src..src + n][j - dest]
        invariant forall j :: 0 <= j < buf.Length && !(dest <= j < dest + k) ==> buf[j] == old(buf[..])[j]
      {
        buf[dest + k] := buf[src + k];
      }
      assert buf[..] == Splice(old(buf[..]), dest, old(buf[..])[src..src + n]);
    }
  }

  lemma FirstFreeStep(s: State, i: nat)
    requires Wf(s) && i < s.len
    ensures FirstFree(s, i) == if Header(s, i) == 0 then i else FirstFree(s, i + 1)
    ensures FirstFree(s, s.len) == s.len
  {}

  lemma AllocNone(s: State, bytes: nat)
    requires Wf(s) && bytes <= CHUNK
    requires s.next + bytes > s.len || bytes == 0 || FirstFree(s, s.next) == s.len
    ensures Alloc(s, bytes) == (s, None)
  {}

  lemma AllocTaken(s: State, bytes: nat, c: nat, after: nat)
    requires Wf(s) && 0 < bytes <= CHUNK && s.next + bytes <= s.len
    requires c == FirstFree(s, s.next) < s.len && after == FirstFree(s, c + 1)
    ensures Alloc(s, bytes)
         == (s.(buf := s.buf[CHUNK * c := 1], next := if after < s.len then after else s.next,
                held := s.held[c := bytes]), Some(DataAt(c)))
  {}

  lemma UnfoldHeaders(s: State)
    requires Inv(s)
    ensures Wf(s) && forall i: nat :: i < s.len ==> Header(s, i) == 0 || Header(s, i) == 1
  {
    forall i: nat | i < s.len ensures Header(s, i) == 0 || Header(s, i) == 1 { assert ChunkOk(s, i); }
  }

  lemma ReallocSteps(s: State, i: nat, bytes: nat)
    requires Inv(s) && i < s.len && i in s.held && s.held[i] <= DATA && bytes <= DATA
    ensures var (t, r) := Alloc(s, bytes);
            && Realloc(s, i, bytes).1 == r && (r.None? ==> Realloc(s, i, bytes).0 == t)
            && t.len == s.len
            && (r.Some? ==>
              && r.value + DATA <= |s.buf| && |t.buf| == |s.buf| && DataAt(i) + DATA <= |s.buf|
              && (r.value + DATA <= DataAt(i) || DataAt(i) + DATA <= r.value)
              && var u := t.(buf := Splice(t.buf, r.value, t.buf[DataAt(i)..DataAt(i) + s.held[i]]));
                 Inv(u) && Freeable(u, DataAt(i)) && Realloc(s, i, bytes).0 == Free(u, DataAt(i)))
  {
    hide ChunkOk, Alloc, Free, SomeFree;
    AllocKeeps(s, bytes);
    var (t, r) := Alloc(s, bytes);
    if r.Some? {
      var c: nat :| c < s.len && r.value == DataAt(c) && Taken(s, bytes, c, t);
      assert InUse(s, i);
      ChunksInOrder(c, i);
      ChunksInOrder(i, c);
      ChunksInOrder(c, s.len);
      ChunksInOrder(i, s.len);
      var x := t.buf[DataAt(i)..DataAt(i) + s.held[i]];
      CopyKeeps(t, c, x, t.(buf := Splice(t.buf, r.value, x)));
    }
  }
}
