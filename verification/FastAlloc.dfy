/** The bump allocator of `kallok/fastalloc.c`. */
module FastAlloc {
  import opened AllocatorContract
  import opened Bytes
  import opened Options

  datatype Block = Block(base: int, size: nat)

  /** The answers of the backing allocator during one operation: whether the table of used-up
      chunks could grow, and the address of a new chunk, if it was given one. */
  datatype Reply = Reply(tableGrows: bool, chunk: Option<int>)

  /** The allocator's fields, with what its client holds (`held`), the chunks the backing
      allocator has handed out (`backing`, the current one last), the memory, and whether
      everything has been released. */
  datatype State = State(
    alive: int, chunks: seq<Block>, chunk: Option<int>, left: nat, size: nat,
    mem: Memory, held: Blocks, backing: seq<Block>, released: bool)

  const CHUNK: nat := 1024

  function ChunkSize(bytes: nat): nat {
    if bytes > CHUNK then bytes * 2 else CHUNK
  }

  predicate NeedsChunk(s: State, bytes: nat) { s.chunk.None? || bytes > s.left }

  /** Replacing the current chunk by one for `bytes`; the old one goes to the table. */
  function Refill(s: State, bytes: nat, reply: Reply): (State, bool) {
    if s.chunk.Some? && !reply.tableGrows then (s, false)
    else
      var t := if s.chunk.Some? then s.(chunks := s.chunks + [Block(s.chunk.value, s.size)]) else s;
      match reply.chunk
      case None => (t, false)
      case Some(p) =>
        var n := ChunkSize(bytes);
        (t.(chunk := Some(p), left := n, size := n, backing := t.backing + [Block(p, n)]), true)
  }

  /** Cutting `bytes` off the current chunk, after replacing it if it is too small. */
  function Bump(s: State, bytes: nat, reply: Reply): (State, Option<int>) {
    var (t, ok) := if NeedsChunk(s, bytes) then Refill(s, bytes, reply) else (s, true);
    if !ok then (t, None)
    else (t.(chunk := Some(t.chunk.value + bytes), left := t.left - bytes, alive := t.alive + 1), t.chunk)
  }

  function Alloc(s: State, bytes: nat, reply: Reply): (State, Option<int>) {
    var (t, r) := Bump(s, bytes, reply);
    (if r.Some? then t.(held := t.held[r.value := bytes]) else t, r)
  }

  function Realloc(s: State, p: int, oldBytes: nat, newBytes: nat, reply: Reply): (State, Option<int>) {
    if newBytes <= oldBytes then (s.(held := s.held[p := newBytes]), Some(p))
    else if s.chunk == Some(p + oldBytes) && newBytes - oldBytes <= s.left then
      var (t, r) := Bump(s, newBytes - oldBytes, reply);
      (t.(held := t.held[p := newBytes]), Some(p))
    else
      var (t, r) := Bump(s, newBytes, reply);
      match r
      case None => (t, None)
      case Some(q) =>
        (t.(held := (t.held - {p})[q := newBytes], mem := Copied(t.mem, q, p, oldBytes)), r)
  }

  /** Giving a block back only counts down; at zero everything is released. */
  function Free(s: State, p: int): State {
    s.(alive := s.alive - 1, held := s.held - {p}, released := s.released || s.alive == 1)
  }

  // ---- Invariant --------------------------------------------------------------------------

  predicate BlockApart(a: Block, b: Block) { Apart(a.base, a.size, b.base, b.size) }

  ghost predicate ChunksApart(backing: seq<Block>) {
    forall i, j :: 0 <= i < j < |backing| ==> BlockApart(backing[i], backing[j])
  }

  /** The range lies inside `b`, and before `top` if `b` is the last chunk. */
  predicate Inside(b: Block, p: int, n: nat, last: bool, top: int) {
    b.base <= p && p + n <= b.base + b.size && (last ==> p + n <= top)
  }

  ghost predicate Below(backing: seq<Block>, p: int, n: nat, top: int) {
    exists k :: 0 <= k < |backing| && Inside(backing[k], p, n, k == |backing| - 1, top)
  }

  /** The range lies inside a chunk; inside the current chunk it ends before the bump pointer. */
  ghost predicate Housed(s: State, p: int, n: nat) {
    n > 0 && s.chunk.Some? && Below(s.backing, p, n, s.chunk.value)
  }

  ghost predicate AllHoused(s: State) {
    forall p :: p in s.held ==> Housed(s, p, s.held[p])
  }

  /** The bump pointer is inside the last chunk handed out, past its start. */
  predicate ChunkOk(s: State) {
    match s.chunk
    case None => s.backing == []
    case Some(c) =>
      && s.backing != []
      && var b := s.backing[|s.backing| - 1];
         b.base < c && c + s.left == b.base + b.size
  }

  ghost predicate Inv(s: State) {
    && ChunksApart(s.backing) && ChunkOk(s)
    && AllHoused(s) && PairwiseApart(s.held)
    && s.alive >= |s.held|
  }

  /** The backing allocator's side of the contract: a new chunk is apart from all earlier ones. */
  ghost predicate ReplyOk(s: State, bytes: nat, reply: Reply) {
    reply.chunk.Some? ==>
      forall i :: 0 <= i < |s.backing| ==> BlockApart(s.backing[i], Block(reply.chunk.value, ChunkSize(bytes)))
  }

  // ---- One operation ----------------------------------------------------------------------

  /** What cutting off `bytes` does: the blocks stay housed, and the cut range is in the current
      chunk, ends at the bump pointer and touches no block. */
  ghost predicate Cut(s: State, bytes: nat, t: State, r: Option<int>) {
    && t.held == s.held && t.mem == s.mem && t.released == s.released
    && ChunksApart(t.backing) && ChunkOk(t) && AllHoused(t)
    && match r
       case None => t.alive == s.alive
       case Some(p) =>
         && t.alive == s.alive + 1 && t.chunk == Some(p + bytes) && t.backing != []
         && Housed(t, p, bytes) && ApartFromAll(s.held, p, bytes)
  }

  /** A block keeps its place when a chunk is added behind, or the limit in the last one moves up. */
  lemma StaysBelow(backing: seq<Block>, p: int, n: nat, top: int, backing': seq<Block>, top': int)
    requires Below(backing, p, n, top)
    requires (backing' == backing && top <= top') || (|backing'| == |backing| + 1 && backing <= backing')
    ensures Below(backing', p, n, top')
  {
    var k :| 0 <= k < |backing| && Inside(backing[k], p, n, k == |backing| - 1, top);
    assert Inside(backing'[k], p, n, k == |backing'| - 1, top');
  }

  /** The last chunk from `top` on is free of blocks that end before `top` wherever they lie in it. */
  lemma TailIsFree(backing: seq<Block>, top: int, n: nat, live: Blocks)
    requires backing != [] && ChunksApart(backing)
    requires var b := backing[|backing| - 1]; b.base <= top && top + n <= b.base + b.size
    requires forall q :: q in live ==> Below(backing, q, live[q], top)
    ensures ApartFromAll(live, top, n)
  {
    var last := |backing| - 1;
    forall q | q in live ensures Apart(top, n, q, live[q]) {
      assert Below(backing, q, live[q], top);
      var k :| 0 <= k < |backing| && Inside(backing[k], q, live[q], k == last, top);
      if k < last { assert BlockApart(backing[k], backing[last]); }
    }
  }

  lemma BumpInChunk(s: State, bytes: nat, reply: Reply)
    requires Inv(s) && bytes > 0 && !NeedsChunk(s, bytes)
    ensures Cut(s, bytes, Bump(s, bytes, reply).0, Bump(s, bytes, reply).1)
  {
    hide Below, PairwiseApart, ApartFromAll;
    var (t, r) := Bump(s, bytes, reply);
    var top := s.chunk.value;
    forall q | q in s.held ensures Housed(t, q, s.held[q]) && Below(s.backing, q, s.held[q], top) {
      assert Housed(s, q, s.held[q]);
      StaysBelow(s.backing, q, s.held[q], top, t.backing, t.chunk.value);
    }
    TailIsFree(s.backing, top, bytes, s.held);
    CutIsHoused(t, top, bytes);
  }

  lemma CutIsHoused(t: State, p: int, n: nat)
    requires ChunkOk(t) && t.chunk == Some(p + n) && n > 0 && t.backing[|t.backing| - 1].base <= p
    ensures Housed(t, p, n)
  {
    var last := |t.backing| - 1;
    assert Inside(t.backing[last], p, n, true, p + n);
  }

  lemma BumpNewChunk(s: State, bytes: nat, reply: Reply)
    requires Inv(s) && bytes > 0 && ReplyOk(s, bytes, reply) && NeedsChunk(s, bytes)
    ensures Cut(s, bytes, Bump(s, bytes, reply).0, Bump(s, bytes, reply).1)
  {
    hide Below, PairwiseApart, ApartFromAll;
    var (t, r) := Bump(s, bytes, reply);
    if r.Some? {
      var p := r.value;
      forall q | q in s.held ensures Housed(t, q, s.held[q]) && Below(t.backing, q, s.held[q], p) {
        assert Housed(s, q, s.held[q]);
        StaysBelow(s.backing, q, s.held[q], s.chunk.value, t.backing, t.chunk.value);
        StaysBelow(s.backing, q, s.held[q], s.chunk.value, t.backing, p);
      }
      TailIsFree(t.backing, p, bytes, s.held);
      CutIsHoused(t, p, bytes);
    } else {
      forall q | q in s.held ensures Housed(t, q, s.held[q]) { assert Housed(s, q, s.held[q]); }
    }
  }

  lemma BumpCuts(s: State, bytes: nat, reply: Reply)
    requires Inv(s) && bytes > 0 && ReplyOk(s, bytes, reply)
    ensures Cut(s, bytes, Bump(s, bytes, reply).0, Bump(s, bytes, reply).1)
  {
    hide *;
    if NeedsChunk(s, bytes) { BumpNewChunk(s, bytes, reply); } else { BumpInChunk(s, bytes, reply); }
  }

  /** A cut range that shares no byte with the other blocks can be handed out. */
  lemma HandOut(s: State, others: Blocks, p: int, n: nat, t: State)
    requires AllHoused(s) && ChunksApart(s.backing) && ChunkOk(s) && PairwiseApart(others)
    requires forall q :: q in others ==> q in s.held && others[q] == s.held[q]
    requires ApartFromAll(others, p, n) && Housed(s, p, n)
    requires t.held == others[p := n] && t.backing == s.backing && t.chunk == s.chunk && t.left == s.left
    requires t.alive > |others|
    ensures Inv(t)
  {
    hide Below, PairwiseApart, ApartFromAll;
    PairwiseAfterAlloc(others, p, n);
    forall q | q in t.held ensures Housed(t, q, t.held[q]) {
      assert Housed(s, q, t.held[q]);
    }
    CardinalityOfUnion(others, p, n);
  }

  lemma CardinalityOfUnion(live: Blocks, p: int, n: nat)
    ensures |live[p := n]| <= |live| + 1
  {
    assert live[p := n].Keys == live.Keys + {p};
    assert |live.Keys + {p}| <= |live.Keys| + 1;
  }

  lemma CardinalityOfRemoval(live: Blocks, p: int)
    requires p in live
    ensures |live - {p}| == |live| - 1
  {
    assert (live - {p}).Keys == live.Keys - {p};
  }

  lemma NotHeld(s: State, p: int, n: nat)
    requires AllHoused(s) && ApartFromAll(s.held, p, n) && n > 0
    ensures p !in s.held
  {
    assert p in s.held ==> Housed(s, p, s.held[p]) && Apart(p, n, p, s.held[p]);
  }

  /** What a request does, field by field: it is cut off the current chunk if it fits there.
      Otherwise the old chunk is entered in the table, if the table can grow, and the request is cut
      off a new chunk of 1024 bytes, or of twice the request if that is more than 1024. */
  predicate Outcome(s: State, bytes: nat, reply: Reply, t: State, r: Option<int>) {
    var fits := s.chunk.Some? && bytes <= s.left;
    var replaced := (s.chunk.None? || reply.tableGrows) && reply.chunk.Some?;
    var size := if bytes <= 1024 then 1024 else bytes + bytes;
    && (r.Some? <==> fits || replaced)
    && t.alive == (if r.Some? then s.alive + 1 else s.alive)
    && (fits ==>
          && r == s.chunk && t.chunk == Some(s.chunk.value + bytes) && t.left == s.left - bytes
          && t.backing == s.backing && t.size == s.size)
    && (!fits && replaced ==>
          && r == reply.chunk && t.chunk == Some(reply.chunk.value + bytes) && t.left == size - bytes
          && t.backing == s.backing + [Block(reply.chunk.value, size)] && t.size == size)
    && (!fits && !replaced ==>
          t.chunk == s.chunk && t.left == s.left && t.backing == s.backing && t.size == s.size)
    && t.chunks == (if !fits && s.chunk.Some? && reply.tableGrows
                    then s.chunks + [Block(s.chunk.value, s.size)] else s.chunks)
  }

  lemma BumpOutcome(s: State, bytes: nat, reply: Reply)
    ensures Outcome(s, bytes, reply, Bump(s, bytes, reply).0, Bump(s, bytes, reply).1)
  {}

  /** An allocation hands out a range apart from every held block, inside a backing chunk. */
  lemma AllocKeeps(s: State, bytes: nat, reply: Reply)
    requires Inv(s) && bytes > 0 && ReplyOk(s, bytes, reply)
    ensures var (t, r) := Alloc(s, bytes, reply);
            && Inv(t) && AllocOk(s.held, bytes, r, t.held) && t.mem == s.mem && t.released == s.released
            && Outcome(s, bytes, reply, t, r)
            && (r.Some? <==>
                  || (s.chunk.Some? && bytes <= s.left)
                  || ((s.chunk.None? || reply.tableGrows) && reply.chunk.Some?))
  {
    BumpOutcome(s, bytes, reply);
    BumpCuts(s, bytes, reply);
    var (t, r) := Bump(s, bytes, reply);
    if r.Some? {
      NotHeld(s, r.value, bytes);
      HandOut(t, s.held, r.value, bytes, Alloc(s, bytes, reply).0);
    }
  }

  /** A block that ends at the bump pointer lies in the current chunk. */
  lemma LastBlockInLastChunk(s: State, p: int, n: nat)
    requires ChunkOk(s) && ChunksApart(s.backing) && Housed(s, p, n) && s.chunk == Some(p + n)
    ensures s.backing[|s.backing| - 1].base <= p
  {
    var last := |s.backing| - 1;
    var k :| 0 <= k < |s.backing| && Inside(s.backing[k], p, n, k == last, p + n);
    if k < last { assert BlockApart(s.backing[k], s.backing[last]); }
  }

  lemma ShrinkKeeps(s: State, p: int, newBytes: nat, reply: Reply)
    requires Inv(s) && p in s.held && 0 < newBytes <= s.held[p]
    ensures ResizeKeeps(s, p, newBytes, reply)
  {
    hide PairwiseApart;
    var k :| 0 <= k < |s.backing| && Inside(s.backing[k], p, s.held[p], k == |s.backing| - 1, s.chunk.value);
    assert Inside(s.backing[k], p, newBytes, k == |s.backing| - 1, s.chunk.value);
    OthersApart(s.held, p);
    ResizedInPlace(s, p, newBytes, s, Realloc(s, p, s.held[p], newBytes, reply).0);
  }

  lemma GrowKeeps(s: State, p: int, newBytes: nat, reply: Reply)
    requires Inv(s) && p in s.held && s.held[p] < newBytes
    requires s.chunk == Some(p + s.held[p]) && newBytes - s.held[p] <= s.left
    ensures ResizeKeeps(s, p, newBytes, reply)
  {
    hide PairwiseApart, ChunksApart, Below;
    var diff := newBytes - s.held[p];
    BumpOutcome(s, diff, reply);
    BumpInChunk(s, diff, reply);
    assert Housed(s, p, s.held[p]);
    LastBlockInLastChunk(s, p, s.held[p]);
    OthersApart(s.held, p);
    var t := Bump(s, diff, reply).0;
    CutIsHoused(t, p, newBytes);
    forall q | q in s.held - {p} ensures Apart(p, newBytes, q, s.held[q]) {
      assert Housed(s, q, s.held[q]);
      assert Apart(p + s.held[p], diff, q, s.held[q]) && Apart(p, s.held[p], q, s.held[q]);
    }
    ResizedInPlace(s, p, newBytes, t, Realloc(s, p, s.held[p], newBytes, reply).0);
  }

  lemma OthersApart(live: Blocks, p: int)
    requires PairwiseApart(live) && p in live
    ensures ApartFromAll(live - {p}, p, live[p])
  {}

  /** Resizing in place: only the size of the block changes, besides the bump pointer. */
  lemma ResizedInPlace(s: State, p: int, n: nat, t: State, t': State)
    requires PairwiseApart(s.held) && p in s.held && s.alive >= |s.held|
    requires t.held == s.held && t.mem == s.mem && t.alive >= s.alive
    requires AllHoused(t) && ChunksApart(t.backing) && ChunkOk(t)
    requires ApartFromAll(s.held - {p}, p, n) && Housed(t, p, n)
    requires t' == t.(held := t.held[p := n])
    ensures Inv(t') && ReallocOk(s.held, s.mem, p, n, Some(p), t'.held, t'.mem)
  {
    hide Below, PairwiseApart, ApartFromAll, ChunksApart, ChunkOk;
    var others := s.held - {p};
    PairwiseAfterRemove(s.held, p);
    CardinalityOfRemoval(s.held, p);
    assert others[p := n] == s.held[p := n];
    HandOut(t, others, p, n, t');
  }

  lemma MoveKeeps(s: State, p: int, newBytes: nat, reply: Reply)
    requires Inv(s) && p in s.held && s.held[p] < newBytes && ReplyOk(s, newBytes, reply)
    requires !(s.chunk == Some(p + s.held[p]) && newBytes - s.held[p] <= s.left)
    ensures ResizeKeeps(s, p, newBytes, reply)
  {
    hide Below, PairwiseApart, ApartFromAll, ChunksApart, ChunkOk, ReplyOk, AllHoused, Bump;
    var oldBytes := s.held[p];
    BumpOutcome(s, newBytes, reply);
    BumpCuts(s, newBytes, reply);
    var (t, r) := Bump(s, newBytes, reply);
    if r.Some? {
      var others := s.held - {p};
      PairwiseAfterRemove(s.held, p);
      CardinalityOfRemoval(s.held, p);
      ApartFromFewer(s.held, p, r.value, newBytes);
      NotHeld(t, r.value, newBytes);
      HandOut(t, others, r.value, newBytes, Realloc(s, p, oldBytes, newBytes, reply).0);
      CopyIntoFresh(others, s.mem, r.value, p, oldBytes, newBytes);
    }
  }

  lemma ApartFromFewer(live: Blocks, p: int, q: int, n: nat)
    requires ApartFromAll(live, q, n)
    ensures ApartFromAll(live - {p}, q, n)
  {}

  ghost predicate ResizeKeeps(s: State, p: int, newBytes: nat, reply: Reply)
    requires p in s.held
  {
    var (t, r) := Realloc(s, p, s.held[p], newBytes, reply);
    && Inv(t) && ReallocOk(s.held, s.mem, p, newBytes, r, t.held, t.mem)
    && t.released == s.released && (r.None? ==> t.held == s.held)
    && ResizeOutcome(s, p, newBytes, reply, t, r)
  }

  /** Which resizes succeed, and where: shrinking always, and growing at the bump pointer when there
      is room, both in place; otherwise exactly as a request for the new size. */
  predicate ResizeOutcome(s: State, p: int, newBytes: nat, reply: Reply, t: State, r: Option<int>)
    requires p in s.held
  {
    var oldBytes := s.held[p];
    if newBytes <= oldBytes then
      && r == Some(p) && t.alive == s.alive && t.backing == s.backing && t.chunk == s.chunk
      && t.left == s.left && t.chunks == s.chunks && t.size == s.size
    else if s.chunk == Some(p + oldBytes) && newBytes - oldBytes <= s.left then
      && r == Some(p) && Outcome(s, newBytes - oldBytes, reply, t, s.chunk)
    else Outcome(s, newBytes, reply, t, r)
  }

  /** A resize keeps the bytes of its block, and reaches no other block, wherever it grows. */
  lemma ReallocKeeps(s: State, p: int, newBytes: nat, reply: Reply)
    requires Inv(s) && p in s.held && newBytes > 0 && ReplyOk(s, newBytes, reply)
    ensures ResizeKeeps(s, p, newBytes, reply)
  {
    if newBytes <= s.held[p] {
      ShrinkKeeps(s, p, newBytes, reply);
    } else if s.chunk == Some(p + s.held[p]) && newBytes - s.held[p] <= s.left {
      GrowKeeps(s, p, newBytes, reply);
    } else {
      MoveKeeps(s, p, newBytes, reply);
    }
  }

  /** Everything is released only when nothing is held any more. */
  lemma FreeKeeps(s: State, p: int)
    requires Inv(s) && p in s.held
    ensures Inv(Free(s, p)) && FreeOk(s.held, p, s.held[p], Free(s, p).held)
    ensures Free(s, p).alive == s.alive - 1 && (Free(s, p).released <==> s.released || s.alive == 1)
    ensures Free(s, p).mem == s.mem && Free(s, p).backing == s.backing
    ensures Free(s, p).chunk == s.chunk && Free(s, p).left == s.left
    ensures Free(s, p).released && !s.released ==> Free(s, p).held == map[]
  {
    hide Below, PairwiseApart, ChunksApart;
    PairwiseAfterRemove(s.held, p);
    CardinalityOfRemoval(s.held, p);
    forall q | q in s.held - {p} ensures Housed(Free(s, p), q, s.held[q]) {
      assert Housed(s, q, s.held[q]);
    }
  }

  // ---- Runs -------------------------------------------------------------------------------

  datatype Event =
    | DoAlloc(bytes: nat, reply: Reply)
    | DoRealloc(p: int, newBytes: nat, reply: Reply)
    | DoFree(p: int)
    | DoWrite(p: int, i: nat, b: byte)

  /** What the client may do next: ask for positive sizes, and use blocks it holds. */
  ghost predicate Legal(s: State, e: Event) {
    && !s.released
    && match e
       case DoAlloc(bytes, reply) => bytes > 0 && ReplyOk(s, bytes, reply)
       case DoRealloc(p, newBytes, reply) => p in s.held && newBytes > 0 && ReplyOk(s, newBytes, reply)
       case DoFree(p) => p in s.held
       case DoWrite(p, i, _) => p in s.held && i < s.held[p]
  }

  function Apply(s: State, e: Event): State {
    match e
    case DoAlloc(bytes, reply) => Alloc(s, bytes, reply).0
    case DoRealloc(p, newBytes, reply) =>
      if p in s.held then Realloc(s, p, s.held[p], newBytes, reply).0 else s
    case DoFree(p) => Free(s, p)
    case DoWrite(p, i, b) => s.(mem := Written(s.mem, p + i, b))
  }

  function Run(s: State, es: seq<Event>): State
    decreases |es|
  {
    if es == [] then s else Run(Apply(s, es[0]), es[1..])
  }

  ghost predicate LegalRun(s: State, es: seq<Event>)
    decreases |es|
  {
    es == [] || (Legal(s, es[0]) && LegalRun(Apply(s, es[0]), es[1..]))
  }

  function Fresh(mem: Memory): State {
    State(0, [], None, 0, 0, mem, map[], [], false)
  }

  predicate Mentions(e: Event, p: int) {
    match e
    case DoAlloc(_, _) => false
    case DoRealloc(q, _, _) => q == p
    case DoFree(q) => q == p
    case DoWrite(q, _, _) => q == p
  }

  /** One event keeps the invariant, and a block the event does not mention. */
  lemma EventKeeps(s: State, e: Event, p: int)
    requires Inv(s) && Legal(s, e)
    ensures Inv(Apply(s, e)) && (Apply(s, e).released ==> Apply(s, e).held == map[])
    ensures p in s.held && !Mentions(e, p) ==>
              p in Apply(s, e).held && Apply(s, e).held[p] == s.held[p]
              && Carried(s.mem, p, Apply(s, e).mem, p, s.held[p])
  {
    hide Inv, ApartFromAll, PairwiseApart, ReplyOk, Alloc, Realloc, Free, Carried;
    match e
    case DoAlloc(bytes, reply) =>
      AllocKeeps(s, bytes, reply);
      CarriedSelf(s.mem, p, if p in s.held then s.held[p] else 0);
    case DoRealloc(q, newBytes, reply) =>
      ReallocKeeps(s, q, newBytes, reply);
      var (t, r) := Realloc(s, q, s.held[q], newBytes, reply);
      if p in s.held && p != q { ReallocSpares(s.held, s.mem, q, newBytes, r, t.held, t.mem, p); }
    case DoFree(q) => FreeKeeps(s, q); FreeMemory(s, q);
      CarriedSelf(s.mem, p, if p in s.held then s.held[p] else 0);
    case DoWrite(q, i, b) =>
      WriteKeeps(s, q, i, b);
      assert p in s.held && p != q ==> p in s.held - {q} && (s.held - {q})[p] == s.held[p];
  }

  /** What an event does to the allocator and to what the client holds. */
  lemma EventMeans(s: State, e: Event) returns (r: Option<int>)
    requires Inv(s) && Legal(s, e)
    ensures e.DoAlloc? ==>
              Outcome(s, e.bytes, e.reply, Apply(s, e), r) && AllocOk(s.held, e.bytes, r, Apply(s, e).held)
    ensures e.DoRealloc? ==>
              && ResizeOutcome(s, e.p, e.newBytes, e.reply, Apply(s, e), r)
              && ReallocOk(s.held, s.mem, e.p, e.newBytes, r, Apply(s, e).held, Apply(s, e).mem)
    ensures e.DoFree? ==>
              && FreeOk(s.held, e.p, s.held[e.p], Apply(s, e).held) && Apply(s, e).mem == s.mem
              && Apply(s, e).alive == s.alive - 1 && (Apply(s, e).released <==> s.alive == 1)
    ensures e.DoWrite? ==>
              && Apply(s, e) == s.(mem := Apply(s, e).mem)
              && forall x :: Apply(s, e).mem(x) == if x == e.p + e.i then e.b else s.mem(x)
  {
    hide Inv, Outcome, ReplyOk, ApartFromAll, PairwiseApart, Alloc, Realloc, Free, Carried, SameContents;
    match e {
      case DoAlloc(bytes, reply) =>
        AllocKeeps(s, bytes, reply);
        r := Alloc(s, bytes, reply).1;
      case DoRealloc(p, newBytes, reply) =>
        ReallocKeeps(s, p, newBytes, reply);
        r := Realloc(s, p, s.held[p], newBytes, reply).1;
      case DoFree(p) => FreeKeeps(s, p); r := None;
      case DoWrite(p, i, b) => r := None;
    }
  }

  lemma CarriedSelf(mem: Memory, p: int, n: nat)
    ensures Carried(mem, p, mem, p, n)
  {}

  lemma FreeMemory(s: State, p: int)
    ensures Free(s, p).mem == s.mem
  {}

  lemma WriteKeeps(s: State, p: int, i: nat, b: byte)
    requires Inv(s) && p in s.held && i < s.held[p]
    ensures Inv(s.(mem := Written(s.mem, p + i, b)))
    ensures SameContents(s.held - {p}, s.mem, Written(s.mem, p + i, b))
  {
    hide Below;
    WriteInside(s.held, s.mem, p, i, b);
    var t := s.(mem := Written(s.mem, p + i, b));
    forall q | q in s.held ensures Housed(t, q, s.held[q]) { assert Housed(s, q, s.held[q]); }
  }

  /** A run of no events changes nothing, and a run's last event happens to what the run before
      it has left. */
  lemma {:induction false} RunPush(s: State, es: seq<Event>, e: Event)
    ensures Run(s, []) == s && Run(s, es + [e]) == Apply(Run(s, es), e)
    ensures LegalRun(s, es + [e]) <==> LegalRun(s, es) && Legal(Run(s, es), e)
    decreases |es|
  {
    hide Legal, Apply;
    if es == [] {
      assert es + [e] == [e] && [e][1..] == [];
    } else {
      assert (es + [e])[1..] == es[1..] + [e];
      RunPush(Apply(s, es[0]), es[1..], e);
    }
  }

  /** What every run of the client keeps, and what a run keeps of a block it does not mention. */
  lemma {:induction false} RunKeeps(s: State, es: seq<Event>, p: int)
    requires Inv(s) && LegalRun(s, es)
    ensures Inv(Run(s, es)) && (es != [] && Run(s, es).released ==> Run(s, es).held == map[])
    ensures p in s.held && (forall i :: 0 <= i < |es| ==> !Mentions(es[i], p)) ==>
              p in Run(s, es).held && Run(s, es).held[p] == s.held[p]
              && Carried(s.mem, p, Run(s, es).mem, p, s.held[p])
    decreases |es|
  {
    hide Inv, Legal, Apply;
    if es == [] {
    } else {
      EventKeeps(s, es[0], p);
      RunKeeps(Apply(s, es[0]), es[1..], p);
    }
  }

  /** From a fresh allocator: held blocks are pairwise apart and inside chunks of the backing
      allocator, and the release that `free` triggers happens only when nothing is held. */
  lemma RunSafe(mem: Memory, es: seq<Event>)
    requires LegalRun(Fresh(mem), es)
    ensures var s := Run(Fresh(mem), es);
            && PairwiseApart(s.held)
            && (forall p :: p in s.held ==> Housed(s, p, s.held[p]))
            && s.alive >= |s.held|
            && (s.released ==> s.held == map[])
  {
    RunKeeps(Fresh(mem), es, 0);
  }

  // ---- The allocator ----------------------------------------------------------------------

  /** The allocator with its fields, and the memory it hands out. */
  class FastAllocator {
    var numAliveAllocs: int
    var chunks: seq<Block>
    var chunk: Option<int>
    var chunkLeft: nat
    var chunkLen: nat
    var mem: Memory
    ghost var held: Blocks
    ghost var backing: seq<Block>
    ghost var released: bool

    ghost function Model(): State
      reads this
    {
      State(numAliveAllocs, chunks, chunk, chunkLeft, chunkLen, mem, held, backing, released)
    }

    constructor (memory: Memory)
      ensures Model() == Fresh(memory)
    {
      numAliveAllocs, chunks, chunk, chunkLeft, chunkLen := 0, [], None, 0, 0;
      mem, held, backing, released := memory, map[], [], false;
    }

    /** The part of `alloc_alloc` that replaces the chunk. */
    method NewChunk(bytes: nat, reply: Reply) returns (ok: bool)
      modifies this
      ensures Model() == Refill(old(Model()), bytes, reply).0 && ok == Refill(old(Model()), bytes, reply).1
      ensures ok <==> (old(chunk).None? || reply.tableGrows) && reply.chunk.Some?
      ensures chunks == if old(chunk).Some? && reply.tableGrows
                        then old(chunks) + [Block(old(chunk).value, old(chunkLen))] else old(chunks)
      ensures !ok ==> chunk == old(chunk) && chunkLeft == old(chunkLeft) && backing == old(backing)
      ensures ok ==> chunk == reply.chunk && chunkLeft == chunkLen == if bytes <= 1024 then 1024 else bytes + bytes
      ensures ok ==> backing == old(backing) + [Block(reply.chunk.value, chunkLen)]
    {
      if chunk.Some? {
        if !reply.tableGrows { return false; }
        chunks := chunks + [Block(chunk.value, chunkLen)];
      }
      var size := 1024;
      if bytes > size { size := bytes * 2; }
      if reply.chunk.None? { return false; }
      chunk := reply.chunk;
      chunkLeft, chunkLen := size, size;
      backing := backing + [Block(reply.chunk.value, size)];
      return true;
    }

    /** `alloc_alloc`, before its result counts as held. */
    method Bumped(bytes: nat, reply: Reply) returns (r: Option<int>)
      modifies this
      ensures Model() == Bump(old(Model()), bytes, reply).0 && r == Bump(old(Model()), bytes, reply).1
      ensures Outcome(old(Model()), bytes, reply, Model(), r) && held == old(held) && mem == old(mem)
    {
      hide Outcome;
      BumpOutcome(Model(), bytes, reply);
      if chunk.None? || bytes > chunkLeft {
        var ok := NewChunk(bytes, reply);
        if !ok { return None; }
      }
      chunkLeft := chunkLeft - bytes;
      r := chunk;
      chunk := Some(chunk.value + bytes);
      numAliveAllocs := numAliveAllocs + 1;
    }

    method AllocAlloc(bytes: nat, reply: Reply) returns (r: Option<int>)
      requires Inv(Model()) && Legal(Model(), DoAlloc(bytes, reply))
      modifies this
      ensures Model() == Apply(old(Model()), DoAlloc(bytes, reply))
      ensures Inv(Model()) && AllocOk(old(held), bytes, r, held) && mem == old(mem)
      ensures r.Some? <==>
        || (old(chunk).Some? && bytes <= old(chunkLeft))
        || ((old(chunk).None? || reply.tableGrows) && reply.chunk.Some?)
      ensures r.Some? ==> r == if old(chunk).Some? && bytes <= old(chunkLeft) then old(chunk) else reply.chunk
      ensures Outcome(old(Model()), bytes, reply, Model(), r)
    {
      AllocKeeps(Model(), bytes, reply);
      r := Bumped(bytes, reply);
      if r.Some? { held := held[r.value := bytes]; }
    }

    method AllocRealloc(p: int, oldBytes: nat, newBytes: nat, reply: Reply) returns (r: Option<int>)
      requires Inv(Model()) && Legal(Model(), DoRealloc(p, newBytes, reply)) && held[p] == oldBytes
      modifies this
      ensures Model() == Apply(old(Model()), DoRealloc(p, newBytes, reply))
      ensures Inv(Model()) && ReallocOk(old(held), old(mem), p, newBytes, r, held, mem)
      ensures r.None? ==> held == old(held)
      ensures newBytes <= oldBytes || (old(chunk) == Some(p + oldBytes) && newBytes - oldBytes <= old(chunkLeft)) ==>
        r == Some(p)
      ensures ResizeOutcome(old(Model()), p, newBytes, reply, Model(), r)
    {
      hide Inv, Outcome, Bump, ReplyOk, PairwiseApart, ApartFromAll, SameContents, Carried, Copied;
      ReallocKeeps(Model(), p, newBytes, reply);
      if newBytes <= oldBytes {
        held := held[p := newBytes];
        return Some(p);
      }
      var diff := newBytes - oldBytes;
      if chunk == Some(p + oldBytes) && diff <= chunkLeft {
        var _ := Bumped(diff, reply);
        held := held[p := newBytes];
        return Some(p);
      }
      r := Bumped(newBytes, reply);
      if r.None? { return; }
      mem := Copied(mem, r.value, p, oldBytes);
      held := (held - {p})[r.value := newBytes];
    }

    /** Freeing the null pointer does nothing. */
    method AllocFree(p: Option<int>)
      requires Inv(Model()) && (p.Some? ==> Legal(Model(), DoFree(p.value)))
      modifies this
      ensures p.None? ==> Model() == old(Model())
      ensures p.Some? ==> Model() == Apply(old(Model()), DoFree(p.value))
                          && FreeOk(old(held), p.value, old(held)[p.value], held)
      ensures Inv(Model()) && (released && !old(released) ==> held == map[])
      ensures p.Some? ==> numAliveAllocs == old(numAliveAllocs) - 1 && (released <==> numAliveAllocs == 0)
      ensures mem == old(mem) && chunk == old(chunk) && chunkLeft == old(chunkLeft)
    {
      if p.None? { return; }
      FreeKeeps(Model(), p.value);
      numAliveAllocs := numAliveAllocs - 1;
      held := held - {p.value};
      if numAliveAllocs == 0 { released := true; }
    }
  }
}
