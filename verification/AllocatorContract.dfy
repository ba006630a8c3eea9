/** What a client may rely on when it talks to an allocator of `kallok/`: blocks it holds, by
    address and size, over flat integer addresses. */
module AllocatorContract {
  import opened Bytes
  import opened Options

  type Memory = int -> byte

  /** The blocks a client holds: their sizes by address. */
  type Blocks = map<int, nat>

  /** Two address ranges have no byte in common. */
  predicate Apart(p: int, m: nat, q: int, n: nat) {
    p + m <= q || q + n <= p
  }

  ghost predicate PairwiseApart(live: Blocks) {
    forall p, q :: p in live && q in live && p != q ==> Apart(p, live[p], q, live[q])
  }

  /** The range shares no byte with any held block. */
  ghost predicate ApartFromAll(live: Blocks, p: int, n: nat) {
    forall q :: q in live ==> Apart(p, n, q, live[q])
  }

  function ByteAt(mem: Memory, p: int, i: int): byte { mem(p + i) }

  /** The `n` bytes from `p` on are, in `mem'`, what the bytes from `q` on are in `mem`. */
  ghost predicate Carried(mem: Memory, q: int, mem': Memory, p: int, n: nat) {
    forall i :: 0 <= i < n ==> ByteAt(mem', p, i) == ByteAt(mem, q, i)
  }

  /** The bytes of every block in `live` are the same in both memories. */
  ghost predicate SameContents(live: Blocks, mem: Memory, mem': Memory) {
    forall p :: p in live ==> Carried(mem, p, mem', p, live[p])
  }

  /** An allocation fails and changes nothing, or hands out a block apart from all held ones. */
  ghost predicate AllocOk(live: Blocks, n: nat, r: Option<int>, live': Blocks) {
    match r
    case None => live' == live
    case Some(p) => p !in live && ApartFromAll(live, p, n) && live' == live[p := n]
  }

  /** A held block is given back with its size, and nothing happens to the others. */
  ghost predicate FreeOk(live: Blocks, p: int, n: nat, live': Blocks) {
    p in live && live[p] == n && live' == live - {p}
  }

  /** A resized block is apart from the other blocks and keeps the bytes that both sizes have;
      the other blocks keep all their bytes. A resize that fails keeps the block or gives it up. */
  ghost predicate ReallocOk(live: Blocks, mem: Memory, p: int, n: nat, r: Option<int>,
                            live': Blocks, mem': Memory) {
    && p in live
    && SameContents(live - {p}, mem, mem')
    && match r
       case None => live' == live || live' == live - {p}
       case Some(q) =>
         && q !in live - {p} && ApartFromAll(live - {p}, q, n) && live' == (live - {p})[q := n]
         && Carried(mem, p, mem', q, if n < live[p] then n else live[p])
  }

  function CopiedByte(mem: Memory, dest: int, src: int, n: nat, x: int): byte {
    if dest <= x < dest + n then mem(x + src - dest) else mem(x)
  }

  /** `mem` after copying `n` bytes from `src` to a range apart from it. */
  function Copied(mem: Memory, dest: int, src: int, n: nat): Memory {
    (x: int) => CopiedByte(mem, dest, src, n, x)
  }

  function WrittenByte(mem: Memory, at: int, b: byte, x: int): byte {
    if x == at then b else mem(x)
  }

  function Written(mem: Memory, at: int, b: byte): Memory {
    (x: int) => WrittenByte(mem, at, b, x)
  }

  lemma PairwiseAfterAlloc(live: Blocks, p: int, n: nat)
    requires PairwiseApart(live) && ApartFromAll(live, p, n)
    ensures PairwiseApart(live[p := n])
  {}

  lemma PairwiseAfterRemove(live: Blocks, p: int)
    requires PairwiseApart(live)
    ensures PairwiseApart(live - {p})
  {}

  lemma CopiedAt(mem: Memory, dest: int, src: int, n: nat, x: int)
    ensures Copied(mem, dest, src, n)(x) == CopiedByte(mem, dest, src, n, x)
  {
    hide CopiedByte;
  }

  lemma CarriedByCopy(mem: Memory, src: int, dest: int, n: nat)
    ensures Carried(mem, src, Copied(mem, dest, src, n), dest, n)
  {
    hide Copied;
    forall i | 0 <= i < n ensures ByteAt(Copied(mem, dest, src, n), dest, i) == ByteAt(mem, src, i) {
      CopiedAt(mem, dest, src, n, dest + i);
    }
  }

  /** Copying into a range that is apart from all the blocks leaves the blocks alone. */
  lemma CopyIntoFresh(live: Blocks, mem: Memory, dest: int, src: int, n: nat, room: nat)
    requires ApartFromAll(live, dest, room) && n <= room
    ensures SameContents(live, mem, Copied(mem, dest, src, n))
    ensures Carried(mem, src, Copied(mem, dest, src, n), dest, n)
  {
    forall p | p in live ensures Carried(mem, p, Copied(mem, dest, src, n), p, live[p]) {
      assert Apart(dest, room, p, live[p]);
    }
    CarriedByCopy(mem, src, dest, n);
  }

  /** A client's write inside one of its blocks reaches no other block. */
  lemma WriteInside(live: Blocks, mem: Memory, p: int, i: nat, b: byte)
    requires PairwiseApart(live) && p in live && i < live[p]
    ensures SameContents(live - {p}, mem, Written(mem, p + i, b))
  {
    forall q | q in live - {p} ensures Carried(mem, q, Written(mem, p + i, b), q, live[q]) {
      assert Apart(p, live[p], q, live[q]);
    }
  }

  /** A resize leaves every other block as it is. */
  lemma ReallocSpares(live: Blocks, mem: Memory, p: int, n: nat, r: Option<int>,
                      live': Blocks, mem': Memory, q: int)
    requires ReallocOk(live, mem, p, n, r, live', mem') && q in live && q != p
    ensures q in live' && live'[q] == live[q] && Carried(mem, q, mem', q, live[q])
  {
    assert q in live - {p} && (live - {p})[q] == live[q];
  }
}
