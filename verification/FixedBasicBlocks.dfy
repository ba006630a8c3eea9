/** The chunk allocator of `kallok/fixed_basic.c` against the allocator contract. */
module FixedBasicBlocks {
  import opened AllocatorContract
  import opened Bytes
  import opened FixedBasicAlloc
  import opened Options

  /** The held blocks by address. */
  function BlocksOf(held: map<nat, nat>): Blocks {
    map i | i in held :: DataAt(i) := held[i]
  }

  lemma BlockAt(held: map<nat, nat>, i: nat)
    ensures i in held <==> DataAt(i) in BlocksOf(held)
    ensures i in held ==> BlocksOf(held)[DataAt(i)] == held[i]
  {}

  lemma BlocksUpdate(held: map<nat, nat>, c: nat, n: nat)
    ensures BlocksOf(held[c := n]) == BlocksOf(held)[DataAt(c) := n]
  {}

  lemma BlocksRemove(held: map<nat, nat>, c: nat)
    ensures BlocksOf(held - {c}) == BlocksOf(held) - {DataAt(c)}
  {}

  function ByteOf(buf: seq<byte>, x: int): byte {
    if 0 <= x < |buf| then buf[x] else 0
  }

  /** The buffer as memory, with addresses that count from its start. */
  function MemoryOf(buf: seq<byte>): Memory {
    (x: int) => ByteOf(buf, x)
  }

  function Address(r: Option<nat>): Option<int> {
    match r case None => None case Some(p) => Some(p)
  }

  /** Data that agrees on its first bytes carries them. */
  lemma DataCarried(s: State, i: nat, t: State, c: nat, n: nat)
    requires Wf(s) && i < s.len && Wf(t) && c < t.len && n <= DATA
    requires Data(t, c)[..n] == Data(s, i)[..n]
    ensures Carried(MemoryOf(s.buf), DataAt(i), MemoryOf(t.buf), DataAt(c), n)
  {
    forall k | 0 <= k < n
      ensures ByteAt(MemoryOf(t.buf), DataAt(c), k) == ByteAt(MemoryOf(s.buf), DataAt(i), k)
    {
      assert Data(t, c)[..n][k] == Data(s, i)[..n][k];
      assert t.buf[DataAt(c) + k] == Data(t, c)[k] && s.buf[DataAt(i) + k] == Data(s, i)[k];
    }
  }

  /** Blocks whose data is the same have the same contents. */
  lemma ContentsSame(s: State, held: map<nat, nat>, t: State)
    requires Wf(s) && Wf(t) && t.len == s.len
    requires forall i :: i in held ==> i < s.len && held[i] <= DATA && Data(t, i) == Data(s, i)
    ensures SameContents(BlocksOf(held), MemoryOf(s.buf), MemoryOf(t.buf))
  {
    forall p | p in BlocksOf(held)
      ensures Carried(MemoryOf(s.buf), p, MemoryOf(t.buf), p, BlocksOf(held)[p])
    {
      var i :| i in held && p == DataAt(i);
      DataCarried(s, i, t, i, held[i]);
    }
  }

  lemma HeldOk(s: State)
    requires Inv(s)
    ensures forall i :: i in s.held ==> i < s.len && 0 < s.held[i] <= DATA
  {
    forall i | i in s.held ensures i < s.len && 0 < s.held[i] <= DATA {
      assert InUse(s, i) && ChunkOk(s, i);
    }
  }

  /** Blocks of at most one chunk's data, in different chunks, are apart. */
  lemma ChunksApart(held: map<nat, nat>, c: nat, n: nat)
    requires n <= DATA && forall i :: i in held ==> held[i] <= DATA
    ensures ApartFromAll(BlocksOf(held - {c}), DataAt(c), n)
  {
    forall p | p in BlocksOf(held - {c}) ensures Apart(DataAt(c), n, p, BlocksOf(held - {c})[p]) {
      var i :| i in held && i != c && p == DataAt(i);
      ChunksInOrder(i, c);
      ChunksInOrder(c, i);
    }
  }

  lemma AllocMeetsContract(s: State, bytes: nat)
    requires Inv(s) && bytes <= DATA
    ensures var (t, r) := Alloc(s, bytes);
            && AllocOk(BlocksOf(s.held), bytes, Address(r), BlocksOf(t.held))
            && SameContents(BlocksOf(s.held), MemoryOf(s.buf), MemoryOf(t.buf))
  {
    hide Inv, Alloc, SameContents, ApartFromAll, SomeFree, MemoryOf, BlocksOf;
    AllocKeeps(s, bytes);
    HeldOk(s);
    WfOf(s);
    var (t, r) := Alloc(s, bytes);
    WfOf(t);
    ContentsSame(s, s.held, t);
    if r.Some? {
      var c: nat :| c < s.len && r.value == DataAt(c) && LowestUnused(s, c) && t.held == s.held[c := bytes];
      ChunksApart(s.held, c, bytes);
      assert s.held - {c} == s.held;
      BlocksUpdate(s.held, c, bytes);
      BlockAt(s.held, c);
    }
  }

  lemma WfOf(s: State)
    requires Inv(s)
    ensures Wf(s)
  {}

  lemma FreeMeetsContract(s: State, i: nat)
    requires Inv(s) && i in s.held
    ensures Freeable(s, DataAt(i))
    ensures var t := Free(s, DataAt(i));
            && FreeOk(BlocksOf(s.held), DataAt(i), s.held[i], BlocksOf(t.held))
            && SameContents(BlocksOf(t.held), MemoryOf(s.buf), MemoryOf(t.buf))
  {
    HeldOk(s);
    assert DataAt(i) % CHUNK == 1;
    FreeKeeps(s, DataAt(i));
    FreeHeld(s, i);
    var t := Free(s, DataAt(i));
    BlocksRemove(s.held, i);
    BlockAt(s.held, i);
    ContentsSame(s, t.held, t);
  }

  lemma ReallocMeetsContract(s: State, i: nat, bytes: nat)
    requires Inv(s) && i < s.len && i in s.held && s.held[i] <= DATA && bytes <= DATA
    ensures var (t, r) := Realloc(s, i, bytes);
            ReallocOk(BlocksOf(s.held), MemoryOf(s.buf), DataAt(i), bytes, Address(r),
                      BlocksOf(t.held), MemoryOf(t.buf))
  {
    hide Realloc, Alloc, SameContents, Carried, ApartFromAll, MemoryOf, BlocksOf, ChunkOk;
    ReallocKeeps(s, i, bytes);
    HeldOk(s);
    var (t, r) := Realloc(s, i, bytes);
    var others := s.held - {i};
    BlockAt(s.held, i);
    BlocksRemove(s.held, i);
    ContentsSame(s, others, s);
    if r.Some? {
      var c: nat :| c < s.len && r.value == DataAt(c) && Moved(s, i, bytes, c, t);
      assert InUse(s, i);
      assert t.held == others[c := bytes];
      ContentsSame(s, others, t);
      ChunksApart(others, c, bytes);
      assert others - {c} == others;
      BlocksUpdate(others, c, bytes);
      BlockAt(others, c);
      var n := if bytes < s.held[i] then bytes else s.held[i];
      assert Data(t, c)[..n] == Data(t, c)[..s.held[i]][..n];
      assert Data(s, i)[..n] == Data(s, i)[..s.held[i]][..n];
      DataCarried(s, i, t, c, n);
    }
  }

  /** Over every run from a fresh buffer, the bytes of held blocks never coincide, and lie in the
      buffer. */
  lemma RunApart(s: State, es: seq<Event>)
    requires Fresh(s) && LegalRun(s, es)
    ensures var t := Run(s, es);
            && PairwiseApart(BlocksOf(t.held))
            && forall i :: i in t.held ==> DataAt(i) + t.held[i] <= |t.buf|
  {
    FreshInv(s);
    RunKeeps(s, es, 0);
    var t := Run(s, es);
    HeldOk(t);
    forall p, q | p in BlocksOf(t.held) && q in BlocksOf(t.held) && p != q
      ensures Apart(p, BlocksOf(t.held)[p], q, BlocksOf(t.held)[q])
    {
      var i :| i in t.held && p == DataAt(i);
      var j :| j in t.held && q == DataAt(j);
      ChunksInOrder(i, j);
      ChunksInOrder(j, i);
    }
  }
}
