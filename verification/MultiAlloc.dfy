/** The allocator of `kallok/multi.c`: it asks one allocator, then another, and notes in a tag
    byte before each block which of the two it came from. */
module MultiAlloc {
  import opened AllocatorContract
  import opened Bytes
  import opened Options

  datatype Side = A | B

  function Tag(side: Side): byte { if side.A? then 0 else 1 }

  /** The blocks each allocator has handed out, what the client holds of them, the memory, and
      the addresses that are the first allocator's (the others are the second one's). */
  datatype State = State(a: Blocks, b: Blocks, held: Blocks, mem: Memory, inA: int -> bool)

  function Get(s: State, side: Side): Blocks { if side.A? then s.a else s.b }

  function Put(s: State, side: Side, blocks: Blocks): State {
    if side.A? then s.(a := blocks) else s.(b := blocks)
  }

  /** What the two allocators answer to one request, and the memory after each was asked. */
  datatype Reply = Reply(a: Option<int>, memA: Memory, b: Option<int>, memB: Memory)

  function Tagged(s: State, side: Side, p: int, n: nat, mem: Memory): State {
    Put(s, side, Get(s, side)[p := n + 1]).(held := s.held[p + 1 := n], mem := Written(mem, p, Tag(side)))
  }

  function Alloc(s: State, n: nat, r: Reply): (State, Option<int>) {
    match r.a
    case Some(p) => (Tagged(s, A, p, n, r.memA), Some(p + 1))
    case None =>
      match r.b
      case Some(p) => (Tagged(s, B, p, n, r.memB), Some(p + 1))
      case None => (s.(mem := r.memB), None)
  }

  /** Which allocator a block is given back to. */
  function SideOf(s: State, p: int): Side { if s.mem(p - 1) == 0 then A else B }

  function Free(s: State, p: int, after: Memory): State {
    var side := SideOf(s, p);
    Put(s, side, Get(s, side) - {p - 1}).(held := s.held - {p}, mem := after)
  }

  /** A resize allocates, copies and frees; when the allocation fails, the old block is freed. */
  function Moved(s: State, p: int, oldBytes: nat, n: nat, r: Reply): (State, Option<int>) {
    var (t, q) := Alloc(s, n, r);
    match q
    case None => (t, q)
    case Some(x) => (t.(mem := Copied(t.mem, x, p, oldBytes)), q)
  }

  function Realloc(s: State, p: int, oldBytes: nat, n: nat, r: Reply, after: Memory): (State, Option<int>) {
    var (t, q) := Moved(s, p, oldBytes, n, r);
    (Free(t, p, after), q)
  }

  // ---- The two allocators' side of the contract -------------------------------------------

  predicate HasSide(s: State, side: Side, x: int) { s.inA(x) == side.A? }

  ghost predicate InRegion(s: State, side: Side, p: int, n: nat) {
    forall x :: p <= x < p + n ==> HasSide(s, side, x)
  }

  /** An allocator leaves the blocks it and the other one have handed out alone. */
  ghost predicate Spared(s: State, mem: Memory, mem': Memory) {
    SameContents(s.a, mem, mem') && SameContents(s.b, mem, mem')
  }

  ghost predicate SideReplyOk(s: State, side: Side, n: nat, r: Option<int>) {
    r.Some? ==> InRegion(s, side, r.value, n)
                && AllocOk(Get(s, side), n, r, Get(s, side)[r.value := n])
  }

  ghost predicate ReplyOk(s: State, n: nat, r: Reply) {
    && SideReplyOk(s, A, n + 1, r.a) && Spared(s, s.mem, r.memA)
    && SideReplyOk(s, B, n + 1, r.b) && Spared(s, r.memA, r.memB)
  }

  // ---- Invariant --------------------------------------------------------------------------

  /** A block of one of the allocators: one byte longer than what the client holds, and tagged. */
  ghost predicate BlockOk(s: State, side: Side, p: int)
    requires p in Get(s, side)
  {
    && Get(s, side)[p] > 0 && InRegion(s, side, p, Get(s, side)[p])
    && p + 1 in s.held && s.held[p + 1] == Get(s, side)[p] - 1
    && s.mem(p) == Tag(side)
  }

  ghost predicate SideOk(s: State, side: Side) {
    PairwiseApart(Get(s, side)) && forall p :: p in Get(s, side) ==> BlockOk(s, side, p)
  }

  predicate Backed(s: State, p: int) { p - 1 in s.a || p - 1 in s.b }

  ghost predicate Inv(s: State) {
    SideOk(s, A) && SideOk(s, B) && forall p :: p in s.held ==> Backed(s, p)
  }

  /** The tag leads every held block back to its allocator, at its address and with its size. */
  lemma Routes(s: State, p: int)
    requires Inv(s) && p in s.held
    ensures p - 1 in Get(s, SideOf(s, p)) && Get(s, SideOf(s, p))[p - 1] == s.held[p] + 1
    ensures s.mem(p - 1) == Tag(SideOf(s, p))
  {
    assert Backed(s, p);
    if p - 1 in s.a { assert BlockOk(s, A, p - 1); } else { assert BlockOk(s, B, p - 1); }
  }

  /** Ranges in different allocators' memory share no byte. */
  lemma RegionsApart(s: State, p: int, m: nat, q: int, n: nat)
    requires InRegion(s, A, p, m) && InRegion(s, B, q, n) && m > 0 && n > 0
    ensures Apart(p, m, q, n) && Apart(q, n, p, m)
  {
    assert HasSide(s, A, p) && HasSide(s, B, q);
    assert p <= q < p + m ==> HasSide(s, A, q);
    assert q <= p < q + n ==> HasSide(s, B, p);
  }

  /** A range apart from one allocator's blocks, in its memory, is apart from all blocks. */
  lemma ApartOnBothSides(s: State, side: Side, p: int, n: nat)
    requires Inv(s) && InRegion(s, side, p, n) && n > 0 && ApartFromAll(Get(s, side), p, n)
    ensures ApartFromAll(s.a, p, n) && ApartFromAll(s.b, p, n)
  {
    forall q | q in s.a ensures Apart(p, n, q, s.a[q]) {
      assert BlockOk(s, A, q);
      if side.B? { RegionsApart(s, q, s.a[q], p, n); }
    }
    forall q | q in s.b ensures Apart(p, n, q, s.b[q]) {
      assert BlockOk(s, B, q);
      if side.A? { RegionsApart(s, p, n, q, s.b[q]); }
    }
  }

  /** Blocks of the allocators never overlap, whichever of the two they came from. */
  lemma BlocksApart(s: State, side: Side, p: int, side': Side, q: int)
    requires Inv(s) && p in Get(s, side) && q in Get(s, side') && p != q
    ensures Apart(p, Get(s, side)[p], q, Get(s, side')[q])
  {
    assert BlockOk(s, side, p) && BlockOk(s, side', q);
    if side == A && side' == B { RegionsApart(s, p, s.a[p], q, s.b[q]); }
    if side == B && side' == A { RegionsApart(s, q, s.a[q], p, s.b[p]); }
  }

  lemma HeldApart(s: State, p: int, q: int)
    requires Inv(s) && p in s.held && q in s.held && p != q
    ensures Apart(p, s.held[p], q, s.held[q]) && Apart(p - 1, s.held[p] + 1, q - 1, s.held[q] + 1)
  {
    Routes(s, p);
    Routes(s, q);
    BlocksApart(s, SideOf(s, p), p - 1, SideOf(s, q), q - 1);
  }

  /** Memory in which all blocks are the same keeps the tags and what the client wrote. */
  lemma SparedKeeps(s: State, mem: Memory)
    requires Inv(s) && Spared(s, s.mem, mem)
    ensures Inv(s.(mem := mem)) && SameContents(s.held, s.mem, mem)
  {
    var t := s.(mem := mem);
    forall p | p in s.a ensures BlockOk(t, A, p) {
      assert BlockOk(s, A, p) && Carried(s.mem, p, mem, p, s.a[p]) && ByteAt(mem, p, 0) == ByteAt(s.mem, p, 0);
      InRegionSame(s, t, A, p, s.a[p]);
    }
    forall p | p in s.b ensures BlockOk(t, B, p) {
      assert BlockOk(s, B, p) && Carried(s.mem, p, mem, p, s.b[p]) && ByteAt(mem, p, 0) == ByteAt(s.mem, p, 0);
      InRegionSame(s, t, B, p, s.b[p]);
    }
    forall p | p in t.held ensures Backed(t, p) { assert Backed(s, p); }
    forall p | p in s.held ensures Carried(s.mem, p, mem, p, s.held[p]) {
      Routes(s, p);
      CarriedTail(s.mem, mem, p, s.held[p]);
    }
  }

  lemma CarriedTail(mem: Memory, mem': Memory, p: int, n: nat)
    requires Carried(mem, p - 1, mem', p - 1, n + 1)
    ensures Carried(mem, p, mem', p, n)
  {
    forall i | 0 <= i < n ensures ByteAt(mem', p, i) == ByteAt(mem, p, i) {
      assert ByteAt(mem', p - 1, i + 1) == ByteAt(mem, p - 1, i + 1);
    }
  }

  lemma InRegionSame(s: State, t: State, side: Side, p: int, n: nat)
    requires InRegion(s, side, p, n) && t.inA == s.inA
    ensures InRegion(t, side, p, n)
  {
    forall x | p <= x < p + n ensures HasSide(t, side, x) { assert HasSide(s, side, x); }
  }

  /** Bytes that change only inside one held block reach no tag and no other block. */
  lemma InsideKeeps(s: State, x: int, mem: Memory)
    requires Inv(s) && x in s.held
    requires forall y :: y < x || x + s.held[x] <= y ==> mem(y) == s.mem(y)
    ensures Inv(s.(mem := mem)) && SameContents(s.held - {x}, s.mem, mem)
  {
    var t := s.(mem := mem);
    Routes(s, x);
    forall p | p in s.a ensures BlockOk(t, A, p) {
      assert BlockOk(s, A, p);
      if p != x - 1 { BlocksApart(s, A, p, SideOf(s, x), x - 1); }
      InRegionSame(s, t, A, p, s.a[p]);
    }
    forall p | p in s.b ensures BlockOk(t, B, p) {
      assert BlockOk(s, B, p);
      if p != x - 1 { BlocksApart(s, B, p, SideOf(s, x), x - 1); }
      InRegionSame(s, t, B, p, s.b[p]);
    }
    forall p | p in t.held ensures Backed(t, p) { assert Backed(s, p); }
    forall p | p in s.held - {x} ensures Carried(s.mem, p, mem, p, s.held[p]) { HeldApart(s, p, x); }
  }

  // ---- One operation ----------------------------------------------------------------------

  /** A block from either allocator, tagged: the client gets a range apart from all it holds. */
  lemma TaggedKeeps(s: State, side: Side, p: int, n: nat, mem: Memory)
    requires Inv(s) && Spared(s, s.mem, mem) && SideReplyOk(s, side, n + 1, Some(p))
    ensures var t := Tagged(s, side, p, n, mem);
            Inv(t) && AllocOk(s.held, n, Some(p + 1), t.held) && SameContents(s.held, s.mem, t.mem)
  {
    var tagged := Written(mem, p, Tag(side));
    ApartOnBothSides(s, side, p, n + 1);
    TagSpares(s, p, n + 1, mem, Tag(side));
    SparedKeeps(s, tagged);
    InRegionSame(s, s.(mem := tagged), side, p, n + 1);
    AddBlock(s.(mem := tagged), side, p, n);
    forall q | q in s.held ensures Apart(p + 1, n, q, s.held[q]) && q != p + 1 {
      Routes(s, q);
      assert Apart(p, n + 1, q - 1, s.held[q] + 1);
    }
  }

  lemma TagSpares(s: State, p: int, n: nat, mem: Memory, tag: byte)
    requires Spared(s, s.mem, mem) && ApartFromAll(s.a, p, n) && ApartFromAll(s.b, p, n) && n > 0
    ensures Spared(s, s.mem, Written(mem, p, tag))
  {
    CarriedPast(s.a, s.mem, mem, p, n, tag);
    CarriedPast(s.b, s.mem, mem, p, n, tag);
  }

  lemma CarriedPast(blocks: Blocks, mem: Memory, mem': Memory, p: int, n: nat, tag: byte)
    requires SameContents(blocks, mem, mem') && ApartFromAll(blocks, p, n) && n > 0
    ensures SameContents(blocks, mem, Written(mem', p, tag))
  {
    forall q | q in blocks ensures Carried(mem, q, Written(mem', p, tag), q, blocks[q]) {
      assert Apart(p, n, q, blocks[q]) && Carried(mem, q, mem', q, blocks[q]);
      forall i | 0 <= i < blocks[q] ensures ByteAt(Written(mem', p, tag), q, i) == ByteAt(mem, q, i) {
        assert ByteAt(mem', q, i) == ByteAt(mem, q, i);
      }
    }
  }

  lemma AddBlock(s: State, side: Side, p: int, n: nat)
    requires Inv(s) && InRegion(s, side, p, n + 1) && s.mem(p) == Tag(side)
    requires ApartFromAll(s.a, p, n + 1) && ApartFromAll(s.b, p, n + 1)
    ensures Inv(Put(s, side, Get(s, side)[p := n + 1]).(held := s.held[p + 1 := n]))
  {
    hide PairwiseApart, InRegion;
    var t := Put(s, side, Get(s, side)[p := n + 1]).(held := s.held[p + 1 := n]);
    PairwiseAfterAlloc(Get(s, side), p, n + 1);
    forall q | q in t.a ensures BlockOk(t, A, q) {
      if q in s.a { assert BlockOk(s, A, q) && Apart(p, n + 1, q, s.a[q]); InRegionSame(s, t, A, q, s.a[q]); }
      else { InRegionSame(s, t, A, p, n + 1); }
    }
    forall q | q in t.b ensures BlockOk(t, B, q) {
      if q in s.b { assert BlockOk(s, B, q) && Apart(p, n + 1, q, s.b[q]); InRegionSame(s, t, B, q, s.b[q]); }
      else { InRegionSame(s, t, B, p, n + 1); }
    }
    forall q | q in t.held ensures Backed(t, q) { assert q != p + 1 ==> Backed(s, q); }
  }

  /** The block that the allocation got: the first allocator's if that had one, else the second
      one's, tagged 0 or 1; the client's part begins one byte later. With no block from either
      nothing is gained. */
  predicate Outcome(s: State, n: nat, answers: Reply, t: State, r: Option<int>) {
    && (r.Some? <==> answers.a.Some? || answers.b.Some?)
    && (answers.a.Some? ==>
          var p := answers.a.value;
          r == Some(p + 1) && t.mem(p) == 0 && t.a == s.a[p := n + 1] && t.b == s.b)
    && (answers.a.None? && answers.b.Some? ==>
          var p := answers.b.value;
          r == Some(p + 1) && t.mem(p) == 1 && t.b == s.b[p := n + 1] && t.a == s.a)
    && (r.None? ==> t.a == s.a && t.b == s.b && t.held == s.held)
    && (r.Some? ==> t.held == s.held[r.value := n])
  }

  /** A resize gets its new block in the same order, and the old block, which starts at `p`, is
      gone from the allocator it came from whether or not there was a new one. */
  predicate ResizeOutcome(s: State, p: int, n: nat, answers: Reply, t: State, r: Option<int>) {
    && (r.Some? <==> answers.a.Some? || answers.b.Some?)
    && (answers.a.Some? ==>
          var x := answers.a.value;
          && r == Some(x + 1) && t.mem(x) == 0
          && t.a == s.a[x := n + 1] - {p - 1} && t.b == s.b - {p - 1})
    && (answers.a.None? && answers.b.Some? ==>
          var x := answers.b.value;
          && r == Some(x + 1) && t.mem(x) == 1
          && t.b == s.b[x := n + 1] - {p - 1} && t.a == s.a - {p - 1})
    && (r.None? ==> t.a == s.a - {p - 1} && t.b == s.b - {p - 1} && t.held == s.held - {p})
    && (r.Some? ==> t.held == s.held[r.value := n] - {p})
  }

  lemma ContentsTransitive(blocks: Blocks, mem: Memory, mem': Memory, mem'': Memory)
    requires SameContents(blocks, mem, mem') && SameContents(blocks, mem', mem'')
    ensures SameContents(blocks, mem, mem'')
  {
    forall p | p in blocks ensures Carried(mem, p, mem'', p, blocks[p]) {
      CarriedTransitive(mem, p, mem', p, mem'', p, blocks[p]);
    }
  }

  lemma CarriedTransitive(mem: Memory, p: int, mem': Memory, q: int, mem'': Memory, r: int, n: nat)
    requires Carried(mem, p, mem', q, n) && Carried(mem', q, mem'', r, n)
    ensures Carried(mem, p, mem'', r, n)
  {
    forall i | 0 <= i < n ensures ByteAt(mem'', r, i) == ByteAt(mem, p, i) {
      assert ByteAt(mem', q, i) == ByteAt(mem, p, i);
    }
  }

  /** The composition meets the contract that it relies on: allocation. */
  lemma AllocKeeps(s: State, n: nat, r: Reply)
    requires Inv(s) && ReplyOk(s, n, r)
    ensures var (t, q) := Alloc(s, n, r);
            && Inv(t) && AllocOk(s.held, n, q, t.held) && SameContents(s.held, s.mem, t.mem)
            && Outcome(s, n, r, t, q)
  {
    hide Inv, SameContents;
    if r.a.Some? {
      TaggedKeeps(s, A, r.a.value, n, r.memA);
    } else {
      ContentsTransitive(s.a, s.mem, r.memA, r.memB);
      ContentsTransitive(s.b, s.mem, r.memA, r.memB);
      if r.b.Some? { TaggedKeeps(s, B, r.b.value, n, r.memB); } else { SparedKeeps(s, r.memB); }
    }
  }

  /** Freeing: the block goes back to the allocator it came from, at its address and size there,
      and the other allocator's blocks stay. */
  lemma FreeKeeps(s: State, p: int, after: Memory)
    requires Inv(s) && p in s.held && Spared(Free(s, p, after), s.mem, after)
    ensures var t := Free(s, p, after);
            var side := SideOf(s, p);
            && Inv(t) && FreeOk(s.held, p, s.held[p], t.held)
            && side == (if s.mem(p - 1) == 0 then A else B)
            && t.a == s.a - {p - 1} && t.b == s.b - {p - 1}
            && FreeOk(Get(s, side), p - 1, s.held[p] + 1, Get(t, side))
            && Get(t, if side.A? then B else A) == Get(s, if side.A? then B else A)
            && SameContents(t.held, s.mem, t.mem) && t.mem == after
  {
    var side := SideOf(s, p);
    Routes(s, p);
    RemoveBlock(s, p);
    var t := Free(s, p, after);
    TagOfBlock(s, p - 1);
    SparedKeeps(t.(mem := s.mem), after);
  }

  /** The first byte of a block is the tag of the allocator that handed it out. */
  lemma TagOfBlock(s: State, p: int)
    requires Inv(s)
    ensures p in s.a ==> s.mem(p) == 0
    ensures p in s.b ==> s.mem(p) == 1
  {
    if p in s.a { assert BlockOk(s, A, p); }
    if p in s.b { assert BlockOk(s, B, p); }
  }

  lemma RemoveBlock(s: State, p: int)
    requires Inv(s) && p in s.held
    ensures Inv(Free(s, p, s.mem))
  {
    hide PairwiseApart, InRegion;
    var t := Free(s, p, s.mem);
    Routes(s, p);
    PairwiseAfterRemove(Get(s, SideOf(s, p)), p - 1);
    forall q | q in t.a ensures BlockOk(t, A, q) {
      assert BlockOk(s, A, q);
      InRegionSame(s, t, A, q, s.a[q]);
    }
    forall q | q in t.b ensures BlockOk(t, B, q) {
      assert BlockOk(s, B, q);
      InRegionSame(s, t, B, q, s.b[q]);
    }
    forall q | q in t.held ensures Backed(t, q) { assert Backed(s, q); }
  }

  ghost predicate MoveReplyOk(s: State, p: int, n: nat, r: Reply, after: Memory)
    requires p in s.held
  {
    var t := Moved(s, p, s.held[p], n, r).0;
    ReplyOk(s, n, r) && Spared(Free(t, p, after), t.mem, after)
  }

  /** The composition meets the contract that it relies on: growing. A failed resize frees. */
  lemma ReallocKeeps(s: State, p: int, n: nat, r: Reply, after: Memory)
    requires Inv(s) && p in s.held && s.held[p] <= n && MoveReplyOk(s, p, n, r, after)
    ensures var (t, q) := Realloc(s, p, s.held[p], n, r, after);
            && Inv(t) && ReallocOk(s.held, s.mem, p, n, q, t.held, t.mem)
            && ResizeOutcome(s, p, n, r, t, q)
  {
    hide Inv, SameContents, Carried, Alloc, Free, Copied, SideReplyOk, ApartFromAll;
    var oldBytes := s.held[p];
    AllocKeeps(s, n, r);
    var (t, q) := Alloc(s, n, r);
    var u := Moved(s, p, oldBytes, n, r).0;
    if q.None? {
      FreeKeeps(t, p, after);
      SubsetSame(s.held, s.held - {p}, s.mem, t.mem);
      ContentsTransitive(s.held - {p}, s.mem, t.mem, after);
    } else {
      CopyKeeps(t, p, q.value, oldBytes);
      FreeKeeps(u, p, after);
      MoveContents(s.held, p, q.value, n, s.mem, t.mem, u.mem, after);
      ApartFromFewer(s.held, p, q.value, n);
      assert t.held - {p} == (s.held - {p})[q.value := n];
      TagOfBlock(Free(u, p, after), q.value - 1);
    }
  }

  lemma SubsetSame(blocks: Blocks, fewer: Blocks, mem: Memory, mem': Memory)
    requires SameContents(blocks, mem, mem')
    requires forall p :: p in fewer ==> p in blocks && blocks[p] == fewer[p]
    ensures SameContents(fewer, mem, mem')
  {
    forall p | p in fewer ensures Carried(mem, p, mem', p, fewer[p]) { assert Carried(mem, p, mem', p, blocks[p]); }
  }

  lemma ApartFromFewer(live: Blocks, p: int, q: int, n: nat)
    requires ApartFromAll(live, q, n)
    ensures ApartFromAll(live - {p}, q, n)
  {}

  lemma CopyKeeps(s: State, p: int, x: int, n: nat)
    requires Inv(s) && p in s.held && x in s.held && n <= s.held[x]
    ensures Inv(s.(mem := Copied(s.mem, x, p, n)))
    ensures SameContents(s.held - {x}, s.mem, Copied(s.mem, x, p, n))
    ensures Carried(s.mem, p, Copied(s.mem, x, p, n), x, n)
  {
    hide Inv, SameContents, Carried;
    var mem := Copied(s.mem, x, p, n);
    assert forall y :: y < x || x + s.held[x] <= y ==> mem(y) == s.mem(y);
    InsideKeeps(s, x, mem);
    CarriedByCopy(s.mem, p, x, n);
  }

  /** What a block holds, followed through the allocation, the copy and the release. */
  lemma MoveContents(live: Blocks, p: int, x: int, n: nat, m0: Memory, m1: Memory, m2: Memory, m3: Memory)
    requires p in live && live[p] <= n && x !in live
    requires SameContents(live, m0, m1) && SameContents(live[x := n] - {x}, m1, m2)
    requires Carried(m1, p, m2, x, live[p]) && SameContents(live[x := n] - {p}, m2, m3)
    ensures SameContents(live - {p}, m0, m3) && Carried(m0, p, m3, x, live[p])
  {
    hide Carried;
    var others := live - {p};
    SubsetSame(live, others, m0, m1);
    SubsetSame(live[x := n] - {x}, others, m1, m2);
    SubsetSame(live[x := n] - {p}, others, m2, m3);
    ContentsTransitive(others, m0, m1, m2);
    ContentsTransitive(others, m0, m2, m3);
    CarriedTransitive(m0, p, m1, p, m2, x, live[p]);
    assert x in live[x := n] - {p};
    CarriedPrefix(m2, x, m3, live[p], n);
    CarriedTransitive(m0, p, m2, x, m3, x, live[p]);
  }

  lemma CarriedPrefix(mem: Memory, p: int, mem': Memory, k: nat, n: nat)
    requires Carried(mem, p, mem', p, n) && k <= n
    ensures Carried(mem, p, mem', p, k)
  {}

  // ---- Runs -------------------------------------------------------------------------------

  datatype Event =
    | DoAlloc(n: nat, reply: Reply)
    | DoFree(p: int, after: Memory)
    | DoRealloc(p: int, n: nat, reply: Reply, after: Memory)
    | DoWrite(p: int, i: nat, b: byte)

  ghost predicate Legal(s: State, e: Event) {
    match e
    case DoAlloc(n, reply) => ReplyOk(s, n, reply)
    case DoFree(p, after) => p in s.held && Spared(Free(s, p, after), s.mem, after)
    case DoRealloc(p, n, reply, after) => p in s.held && s.held[p] <= n && MoveReplyOk(s, p, n, reply, after)
    case DoWrite(p, i, _) => p in s.held && i < s.held[p]
  }

  function Apply(s: State, e: Event): State {
    match e
    case DoAlloc(n, reply) => Alloc(s, n, reply).0
    case DoFree(p, after) => Free(s, p, after)
    case DoRealloc(p, n, reply, after) => if p in s.held then Realloc(s, p, s.held[p], n, reply, after).0 else s
    case DoWrite(p, i, b) => s.(mem := Written(s.mem, p + i, b))
  }

  ghost predicate LegalRun(s: State, es: seq<Event>)
    decreases |es|
  {
    es == [] || (Legal(s, es[0]) && LegalRun(Apply(s, es[0]), es[1..]))
  }

  function Run(s: State, es: seq<Event>): State
    decreases |es|
  {
    if es == [] then s else Run(Apply(s, es[0]), es[1..])
  }

  predicate Mentions(e: Event, p: int) {
    match e
    case DoAlloc(_, _) => false
    case DoFree(q, _) => q == p
    case DoRealloc(q, _, _, _) => q == p
    case DoWrite(q, _, _) => q == p
  }

  ghost predicate SameBlock(s: State, t: State, p: int)
    requires p in s.held
  {
    p in t.held && t.held[p] == s.held[p] && Carried(s.mem, p, t.mem, p, s.held[p])
  }

  lemma EventKeeps(s: State, e: Event, p: int)
    requires Inv(s) && Legal(s, e)
    ensures Inv(Apply(s, e))
    ensures p in s.held && !Mentions(e, p) ==> SameBlock(s, Apply(s, e), p)
  {
    hide Inv, Alloc, Free, Realloc, ReplyOk, MoveReplyOk, Spared, ApartFromAll, Carried;
    match e
    case DoAlloc(n, reply) => AllocKeeps(s, n, reply);
    case DoFree(q, after) => FreeKeeps(s, q, after);
    case DoRealloc(q, n, reply, after) =>
      ReallocKeeps(s, q, n, reply, after);
      var (t, r) := Realloc(s, q, s.held[q], n, reply, after);
      if p in s.held && p != q { ReallocSpares(s.held, s.mem, q, n, r, t.held, t.mem, p); }
    case DoWrite(q, i, b) =>
      InsideKeeps(s, q, Written(s.mem, q + i, b));
      assert p in s.held && p != q ==> p in s.held - {q} && (s.held - {q})[p] == s.held[p];
  }

  /** What an event does to the two allocators and to what the client holds. */
  lemma EventMeans(s: State, e: Event) returns (r: Option<int>)
    requires Inv(s) && Legal(s, e)
    ensures e.DoAlloc? ==>
              Outcome(s, e.n, e.reply, Apply(s, e), r) && AllocOk(s.held, e.n, r, Apply(s, e).held)
    ensures e.DoRealloc? ==>
              && ResizeOutcome(s, e.p, e.n, e.reply, Apply(s, e), r)
              && ReallocOk(s.held, s.mem, e.p, e.n, r, Apply(s, e).held, Apply(s, e).mem)
    ensures e.DoFree? ==>
              && Apply(s, e).held == s.held - {e.p} && Apply(s, e).mem == e.after
              && Apply(s, e).a == s.a - {e.p - 1} && Apply(s, e).b == s.b - {e.p - 1}
    ensures e.DoWrite? ==>
              && Apply(s, e) == s.(mem := Apply(s, e).mem)
              && forall x :: Apply(s, e).mem(x) == if x == e.p + e.i then e.b else s.mem(x)
  {
    hide Inv, Outcome, ResizeOutcome, ReplyOk, MoveReplyOk, Spared, ApartFromAll, Alloc, Realloc, Free, Carried,
      SameContents;
    match e {
      case DoAlloc(n, reply) =>
        AllocKeeps(s, n, reply);
        r := Alloc(s, n, reply).1;
      case DoFree(p, after) => FreeKeeps(s, p, after); r := None;
      case DoRealloc(p, n, reply, after) =>
        ReallocKeeps(s, p, n, reply, after);
        r := Realloc(s, p, s.held[p], n, reply, after).1;
      case DoWrite(p, i, b) => r := None;
    }
  }

  /** A run of no events changes nothing, and a run's last event happens to what the run before
      it has left. */
  lemma {:induction false} RunPush(s: State, es: seq<Event>, e: Event)
    ensures Run(s, []) == s && Run(s, es + [e]) == Apply(Run(s, es), e)
    ensures LegalRun(s, es + [e]) <==> LegalRun(s, es) && Legal(Run(s, es), e)
    decreases |es|
  {
    hide Legal, Apply;
    if es == [] {
      assert es + [e] == [e] && [e][1..] == [];
    } else {
      assert (es + [e])[1..] == es[1..] + [e];
      RunPush(Apply(s, es[0]), es[1..], e);
    }
  }

  /** What every run keeps, and what a run keeps of a block it does not mention. */
  lemma {:induction false} RunKeeps(s: State, es: seq<Event>, p: int)
    requires Inv(s) && LegalRun(s, es)
    ensures Inv(Run(s, es))
    ensures p in s.held && (forall i :: 0 <= i < |es| ==> !Mentions(es[i], p)) ==> SameBlock(s, Run(s, es), p)
    decreases |es|
  {
    hide Inv, Legal, Apply;
    if es == [] {
    } else {
      EventKeeps(s, es[0], p);
      RunKeeps(Apply(s, es[0]), es[1..], p);
      if p in s.held && SameBlock(s, Apply(s, es[0]), p) && SameBlock(Apply(s, es[0]), Run(s, es), p) {
        CarriedTransitive(s.mem, p, Apply(s, es[0]).mem, p, Run(s, es).mem, p, s.held[p]);
      }
    }
  }

  function Fresh(mem: Memory, inA: int -> bool): State { State(map[], map[], map[], mem, inA) }

  /** From two fresh allocators: what the client holds never overlaps, and the tag in front of
      each block names the allocator that holds it, one byte lower and one byte longer. */
  lemma RunSafe(mem: Memory, inA: int -> bool, es: seq<Event>)
    requires LegalRun(Fresh(mem, inA), es)
    ensures var s := Run(Fresh(mem, inA), es);
            && PairwiseApart(s.held)
            && forall p :: p in s.held ==>
                 p - 1 in Get(s, SideOf(s, p)) && Get(s, SideOf(s, p))[p - 1] == s.held[p] + 1
  {
    RunKeeps(Fresh(mem, inA), es, 0);
    var s := Run(Fresh(mem, inA), es);
    forall p, q | p in s.held && q in s.held && p != q ensures Apart(p, s.held[p], q, s.held[q]) { HeldApart(s, p, q); }
    forall p | p in s.held ensures p - 1 in Get(s, SideOf(s, p)) && Get(s, SideOf(s, p))[p - 1] == s.held[p] + 1 {
      Routes(s, p);
    }
  }

  // ---- The allocator ----------------------------------------------------------------------

  /** The composition, with the memory it tags and what the two allocators have handed out. */
  class MultiAllocator {
    var mem: Memory
    ghost const inA: int -> bool
    ghost var a: Blocks
    ghost var b: Blocks
    ghost var held: Blocks

    ghost function Model(): State
      reads this
    {
      State(a, b, held, mem, inA)
    }

    constructor (memory: Memory, ghost firstRegion: int -> bool)
      ensures Model() == Fresh(memory, firstRegion)
    {
      mem, inA, a, b, held := memory, firstRegion, map[], map[], map[];
    }

    /** `answers` are the two allocators' replies; the second is asked only if the first has none. */
    method AllocAlloc(n: nat, answers: Reply) returns (r: Option<int>)
      requires Inv(Model()) && Legal(Model(), DoAlloc(n, answers))
      modifies this
      ensures Model() == Alloc(old(Model()), n, answers).0 && r == Alloc(old(Model()), n, answers).1
      ensures Inv(Model()) && AllocOk(old(held), n, r, held) && SameContents(old(held), old(mem), mem)
      ensures Outcome(old(Model()), n, answers, Model(), r)
    {
      hide Inv, ReplyOk, AllocOk, SameContents, Written;
      AllocKeeps(Model(), n, answers);
      var block := answers.a;
      mem := answers.memA;
      if block.None? {
        block := answers.b;
        mem := answers.memB;
        if block.None? { return None; }
        b := b[block.value := n + 1];
        mem := Written(mem, block.value, 1);
      } else {
        a := a[block.value := n + 1];
        mem := Written(mem, block.value, 0);
      }
      held := held[block.value + 1 := n];
      return Some(block.value + 1);
    }

    /** `after` is the memory once the allocator that gets the block back is done. */
    method AllocFree(p: int, oldBytes: nat, after: Memory)
      requires Inv(Model()) && Legal(Model(), DoFree(p, after)) && held[p] == oldBytes
      modifies this
      ensures Model() == Free(old(Model()), p, after)
      ensures Inv(Model()) && FreeOk(old(held), p, oldBytes, held)
      ensures SideOf(old(Model()), p).A? ==> FreeOk(old(a), p - 1, oldBytes + 1, a) && b == old(b)
      ensures SideOf(old(Model()), p).B? ==> FreeOk(old(b), p - 1, oldBytes + 1, b) && a == old(a)
    {
      hide Inv, Spared, SameContents;
      FreeKeeps(Model(), p, after);
      var block := p - 1;
      if mem(block) == 0 { a := a - {block}; } else { b := b - {block}; }
      held := held - {p};
      mem := after;
    }

    method AllocRealloc(p: int, oldBytes: nat, n: nat, answers: Reply, after: Memory) returns (r: Option<int>)
      requires Inv(Model()) && Legal(Model(), DoRealloc(p, n, answers, after)) && held[p] == oldBytes
      modifies this
      ensures Model() == Realloc(old(Model()), p, oldBytes, n, answers, after).0
      ensures Inv(Model()) && ReallocOk(old(held), old(mem), p, n, r, held, mem)
      ensures ResizeOutcome(old(Model()), p, n, answers, Model(), r)
    {
      hide Inv, ReplyOk, Spared, SameContents, Alloc, Free, Copied, Carried, ApartFromAll;
      ghost var was := Model();
      ReallocKeeps(was, p, n, answers, after);
      MovedKeeps(was, p, n, answers);
      r := AllocAlloc(n, answers);
      if r.None? {
        AllocFree(p, oldBytes, after);
        return;
      }
      mem := Copied(mem, r.value, p, oldBytes);
      AllocFree(p, oldBytes, after);
    }
  }

  lemma MovedKeeps(s: State, p: int, n: nat, r: Reply)
    requires Inv(s) && p in s.held && s.held[p] <= n && ReplyOk(s, n, r)
    ensures var u := Moved(s, p, s.held[p], n, r).0;
            Inv(u) && p in u.held && u.held[p] == s.held[p]
  {
    hide Inv, SameContents, Carried, Alloc, Copied, ApartFromAll;
    AllocKeeps(s, n, r);
    var (t, q) := Alloc(s, n, r);
    if q.Some? { CopyKeeps(t, p, q.value, s.held[p]); }
  }
}
