/** The doubly linked list of `linked_list/`. */
module LinkedList {
  import opened Bytes
  import opened DynamicListSpec
  import opened StridedCopy
  import DynamicList

  class Node {
    var next: Node?
    var prev: Node?
    const data: seq<byte>

    /** A fresh node with its element, which stays: its successor is null and its predecessor is
        whatever the memory held. */
    constructor (data: seq<byte>)
      ensures next == null && this.data == data
    {
      next := null;
      this.data := data;
    }
  }

  /** The allocator shared by lists, seen through the nodes it has handed out and not got back. */
  class Ally {
    ghost var live: set<Node>

    method AllocElem(data: seq<byte>) returns (elem: Node)
      modifies this
      ensures fresh(elem) && elem.next == null && elem.data == data
      ensures live == old(live) + {elem}
    {
      elem := new Node(data);
      live := live + {elem};
    }

    /** Only a live node may be given back. Its fields keep their values: `removeMultiple` reads
        the successor of a node it has just released. */
    method FreeElem(elem: Node)
      requires elem in live
      modifies this
      ensures live == old(live) - {elem}
    {
      live := live - {elem};
    }
  }

  /** `next` links run through `ns` and stop after the last node. */
  ghost predicate ForwardChain(ns: seq<Node>)
    reads ns
    decreases |ns|
  {
    ns == [] || (ns[0].next == (if |ns| > 1 then ns[1] else null) && ForwardChain(ns[1..]))
  }

  lemma {:induction false} ForwardLinks(ns: seq<Node>)
    ensures ForwardChain(ns) <==>
      forall i {:trigger ns[i].next} :: 0 <= i < |ns| ==>
        ns[i].next == if i + 1 < |ns| then ns[i + 1] else null
  {
    if ns == [] {
    } else {
      var t := ns[1..];
      ForwardLinks(t);
      if ForwardChain(ns) {
        forall i | 0 <= i < |ns| ensures ns[i].next == if i + 1 < |ns| then ns[i + 1] else null {
          if i > 0 {
            assert t[i - 1].next == ns[i].next;
          }
        }
      } else if ns[0].next == if |ns| > 1 then ns[1] else null {
        var i :| 0 <= i < |t| && t[i].next != if i + 1 < |t| then t[i + 1] else null;
        assert ns[i + 1].next == t[i].next;
      }
    }
  }

  /** `prev` links run backwards through `ns` and end at `before`. */
  ghost predicate BackwardFrom(before: Node?, ns: seq<Node>)
    reads ns
    decreases |ns|
  {
    ns == [] || (ns[0].prev == before && BackwardFrom(ns[0], ns[1..]))
  }

  ghost predicate BackwardChain(ns: seq<Node>)
    reads ns
  {
    BackwardFrom(null, ns)
  }

  lemma {:induction false} BackwardLinks(before: Node?, ns: seq<Node>)
    ensures BackwardFrom(before, ns) <==>
      forall i {:trigger ns[i].prev} :: 0 <= i < |ns| ==>
        ns[i].prev == if i > 0 then ns[i - 1] else before
    decreases |ns|
  {
    if ns == [] {
    } else {
      var t := ns[1..];
      BackwardLinks(ns[0], t);
      if BackwardFrom(before, ns) {
        forall i | 0 <= i < |ns| ensures ns[i].prev == if i > 0 then ns[i - 1] else before {
          if i > 0 {
            assert t[i - 1].prev == ns[i].prev;
          }
        }
      } else if ns[0].prev == before {
        var i :| 0 <= i < |t| && t[i].prev != if i > 0 then t[i - 1] else ns[0];
        assert ns[i + 1].prev == t[i].prev;
      }
    }
  }

  /** No node occurs twice. */
  ghost predicate Distinct(ns: seq<Node>) {
    ns == [] || (Distinct(ns[1..]) && ns[0] !in ns[1..])
  }

  lemma {:induction false} DistinctPairs(ns: seq<Node>)
    ensures Distinct(ns) <==> forall i, j :: 0 <= i < j < |ns| ==> ns[i] != ns[j]
  {
    if ns == [] {
    } else {
      DistinctPairs(ns[1..]);
      if Distinct(ns) {
        forall i, j | 0 <= i < j < |ns| ensures ns[i] != ns[j] {
          assert ns[j] == ns[1..][j - 1];
        }
      }
      if forall i, j :: 0 <= i < j < |ns| ==> ns[i] != ns[j] {
        forall i, j | 0 <= i < j < |ns[1..]| ensures ns[1..][i] != ns[1..][j] {
          assert ns[i + 1] != ns[j + 1];
        }
      }
    }
  }

  ghost predicate Disjoint(a: seq<Node>, b: seq<Node>) {
    forall i, j :: 0 <= i < |a| && 0 <= j < |b| ==> a[i] != b[j]
  }

  /** The elements held by `ns`, in order. */
  ghost function Payloads(ns: seq<Node>): (xs: seq<seq<byte>>)
    ensures |xs| == |ns| && forall i :: 0 <= i < |ns| ==> xs[i] == ns[i].data
  {
    seq(|ns|, i requires 0 <= i < |ns| => ns[i].data)
  }

  ghost function NodeSet(ns: seq<Node>): set<Node> {
    if ns == [] then {} else NodeSet(ns[..|ns| - 1]) + {ns[|ns| - 1]}
  }

  lemma NodeSetPush(ns: seq<Node>, x: Node)
    ensures NodeSet(ns + [x]) == NodeSet(ns) + {x}
  {
    assert (ns + [x])[..|ns|] == ns;
  }

  lemma {:induction false} NodeSetMember(ns: seq<Node>, n: Node)
    ensures n in NodeSet(ns) <==> n in ns
  {
    if ns == [] {
    } else {
      assert ns == ns[..|ns| - 1] + [ns[|ns| - 1]];
      NodeSetMember(ns[..|ns| - 1], n);
    }
  }

  lemma PayloadsConcat(a: seq<Node>, b: seq<Node>)
    ensures Payloads(a + b) == Payloads(a) + Payloads(b)
  {
    var left, right := Payloads(a + b), Payloads(a) + Payloads(b);
    forall i | 0 <= i < |left| ensures left[i] == right[i] {
      assert (a + b)[i] == if i < |a| then a[i] else b[i - |a|];
    }
  }

  /** Two chains joined at their ends. */
  method Join(left: Node, right: Node, ghost a: seq<Node>, ghost b: seq<Node>)
    requires a != [] && b != [] && left == a[|a| - 1] && right == b[0]
    requires Distinct(a + b)
    requires ForwardChain(a) && BackwardChain(a) && ForwardChain(b) && BackwardChain(b)
    modifies left`next, right`prev
    ensures ForwardChain(a + b) && BackwardChain(a + b)
  {
    DistinctPairs(a + b);
    ForwardLinks(a);
    ForwardLinks(b);
    BackwardLinks(null, a);
    BackwardLinks(null, b);
    assert forall i :: 0 <= i < |a| ==> (a + b)[i] == a[i];
    assert forall i :: 0 <= i < |b| ==> (a + b)[|a| + i] == b[i];
    left.next := right;
    right.prev := left;
    assert forall i {:trigger a[i]} :: 0 <= i < |a| - 1 ==> a[i] != left;
    assert forall i {:trigger b[i]} :: 0 < i < |b| ==> b[i] != right;
    ForwardLinks(a + b);
    BackwardLinks(null, a + b);
  }

  lemma DisjointSwap(a: seq<Node>, b: seq<Node>)
    requires Disjoint(a, b)
    ensures Disjoint(b, a)
  {}

  lemma DistinctConcat(a: seq<Node>, b: seq<Node>)
    requires Distinct(a) && Distinct(b) && Disjoint(a, b)
    ensures Distinct(a + b)
  {
    DistinctPairs(a);
    DistinctPairs(b);
    forall i, j | 0 <= i < j < |a + b| ensures (a + b)[i] != (a + b)[j] {
      if i < |a| <= j {
        assert a[i] != b[j - |a|];
      }
    }
    DistinctPairs(a + b);
  }

  /** The nodes are live and hold elements of `elSize` bytes. */
  ghost predicate OwnedBy(ns: seq<Node>, live: set<Node>, elSize: nat) {
    ns == [] || (ns[0] in live && |ns[0].data| == elSize && OwnedBy(ns[1..], live, elSize))
  }

  lemma {:induction false} OwnedEach(ns: seq<Node>, live: set<Node>, elSize: nat)
    ensures OwnedBy(ns, live, elSize) <==>
      forall i :: 0 <= i < |ns| ==> ns[i] in live && |ns[i].data| == elSize
  {
    if ns == [] {
    } else {
      OwnedEach(ns[1..], live, elSize);
      if forall i :: 0 <= i < |ns| ==> ns[i] in live && |ns[i].data| == elSize {
        forall i | 0 <= i < |ns[1..]| ensures ns[1..][i] in live && |ns[1..][i].data| == elSize {
          assert ns[1..][i] == ns[i + 1];
        }
      }
      if OwnedBy(ns, live, elSize) {
        forall i | 0 <= i < |ns| ensures ns[i] in live && |ns[i].data| == elSize {
          if i > 0 {
            assert ns[i] == ns[1..][i - 1];
          }
        }
      }
    }
  }

  lemma OwnedGrow(ns: seq<Node>, live: set<Node>, more: set<Node>, elSize: nat)
    requires OwnedBy(ns, live, elSize) && live <= more
    ensures OwnedBy(ns, more, elSize)
  {
    OwnedEach(ns, live, elSize);
    OwnedEach(ns, more, elSize);
  }

  lemma OwnedInsert(ns: seq<Node>, k: nat, x: Node, live: set<Node>, elSize: nat)
    requires OwnedBy(ns, live, elSize) && k <= |ns| && |x.data| == elSize
    ensures OwnedBy(Insert(ns, k, x), live + {x}, elSize)
  {
    OwnedEach(ns, live, elSize);
    InsertAt(ns, k, x);
    OwnedEach(Insert(ns, k, x), live + {x}, elSize);
  }

  lemma OwnedConcat(a: seq<Node>, b: seq<Node>, live: set<Node>, elSize: nat)
    requires OwnedBy(a, live, elSize) && OwnedBy(b, live, elSize)
    ensures OwnedBy(a + b, live, elSize)
  {
    OwnedEach(a, live, elSize);
    OwnedEach(b, live, elSize);
    OwnedEach(a + b, live, elSize);
  }

  function Insert<T>(s: seq<T>, k: nat, x: T): (r: seq<T>)
    requires k <= |s|
    ensures |r| == |s| + 1
  {
    s[..k] + [x] + s[k..]
  }

  lemma InsertFirst<T>(s: seq<T>, x: T)
    ensures Insert(s, 0, x) == [x] + s
  {}

  lemma InsertAt<T>(s: seq<T>, k: nat, x: T)
    requires k <= |s|
    ensures var r := Insert(s, k, x);
      forall i :: 0 <= i < |r| ==> r[i] == if i < k then s[i] else if i == k then x else s[i - 1]
  {}

  lemma {:induction false} InsertDistinct(ns: seq<Node>, k: nat, x: Node)
    requires Distinct(ns) && k <= |ns| && x !in ns
    ensures Distinct(Insert(ns, k, x))
  {
    var r := Insert(ns, k, x);
    if k == 0 {
      assert r[1..] == ns;
    } else {
      InsertDistinct(ns[1..], k - 1, x);
      assert r[1..] == Insert(ns[1..], k - 1, x);
      assert forall n :: n in r[1..] ==> n in ns[1..] || n == x;
    }
  }

  lemma PayloadsInsert(ns: seq<Node>, k: nat, x: Node)
    requires k <= |ns|
    ensures Payloads(Insert(ns, k, x)) == Insert(Payloads(ns), k, x.data)
  {
    PayloadsConcat(ns[..k] + [x], ns[k..]);
    PayloadsConcat(ns[..k], [x]);
  }

  /** Linking a new node in after node `k - 1`. The successor's `prev` link stays behind. */
  method Hook(after: Node, elem: Node, ghost ns: seq<Node>, ghost k: nat)
    requires 0 < k <= |ns| && after == ns[k - 1] && elem !in ns
    requires Distinct(ns) && ForwardChain(ns) && BackwardChain(ns)
    modifies elem, after`next
    ensures ForwardChain(Insert(ns, k, elem))
    ensures BackwardChain(Insert(ns, k, elem)) <==> k == |ns|
  {
    ghost var r := Insert(ns, k, elem);
    InsertAt(ns, k, elem);
    DistinctPairs(ns);
    ForwardLinks(ns);
    BackwardLinks(null, ns);
    elem.prev := after;
    elem.next := after.next;
    after.next := elem;
    if k < |ns| {
      assert r[k + 1].prev == ns[k].prev == ns[k - 1] != r[k];
    }
    ForwardLinks(r);
    BackwardLinks(null, r);
  }

  lemma LinksAt(ns: seq<Node>, k: nat)
    requires ForwardChain(ns) && BackwardChain(ns) && k < |ns|
    ensures ns[k].next == if k + 1 < |ns| then ns[k + 1] else null
    ensures ns[k].prev == if k > 0 then ns[k - 1] else null
  {
    ForwardLinks(ns);
    BackwardLinks(null, ns);
  }

  lemma DistinctEnds(ns: seq<Node>, k: nat)
    requires Distinct(ns) && k < |ns|
    ensures ns[k] == ns[0] <==> k == 0
    ensures ns[k] == ns[|ns| - 1] <==> k == |ns| - 1
  {
    DistinctPairs(ns);
  }

  ghost function Head(ns: seq<Node>): Node? { if ns == [] then null else ns[0] }

  ghost function Last(ns: seq<Node>): Node? { if ns == [] then null else ns[|ns| - 1] }

  lemma OnlyAt(ns: seq<Node>, k: nat)
    requires Distinct(ns) && k < |ns|
    ensures forall m :: 0 <= m < |ns| && m != k ==> ns[m] != ns[k]
  {
    DistinctPairs(ns);
  }

  /** `s` without the elements `first` to `last`. */
  function Cut<T>(s: seq<T>, first: nat, last: nat): seq<T>
    requires first <= last < |s|
  {
    s[..first] + s[last + 1..]
  }

  lemma CutAt<T>(s: seq<T>, i: nat, j: nat)
    requires i <= j < |s|
    ensures |Cut(s, i, j)| == |s| - (j + 1 - i)
    ensures forall k :: 0 <= k < |s| - (j + 1 - i) ==> Cut(s, i, j)[k] == s[if k < i then k else k + (j + 1 - i)]
  {}

  lemma CutEnds(ns: seq<Node>, i: nat, j: nat)
    requires i <= j < |ns|
    ensures Head(Cut(ns, i, j)) == if i > 0 then ns[0] else if j + 1 < |ns| then ns[j + 1] else null
    ensures Last(Cut(ns, i, j)) == if j + 1 < |ns| then ns[|ns| - 1] else if i > 0 then ns[i - 1] else null
  {}

  lemma CutDistinct(ns: seq<Node>, i: nat, j: nat)
    requires Distinct(ns) && i <= j < |ns|
    ensures Distinct(Cut(ns, i, j)) && Disjoint(Cut(ns, i, j), ns[i..j + 1])
  {
    hide Cut, Distinct;
    var rest, gap := Cut(ns, i, j), j + 1 - i;
    DistinctPairs(ns);
    CutAt(ns, i, j);
    forall x, y | 0 <= x < y < |rest| ensures rest[x] != rest[y] {
      assert ns[if x < i then x else x + gap] != ns[if y < i then y else y + gap];
    }
    DistinctPairs(rest);
    forall x, y | 0 <= x < |rest| && i <= y <= j ensures rest[x] != ns[y] {
      assert ns[if x < i then x else x + gap] != ns[y];
    }
  }

  lemma NodeSetOne(ns: seq<Node>, k: nat)
    requires k < |ns|
    ensures NodeSet(ns[k..k + 1]) == {ns[k]}
  {
    assert ns[k..k + 1] == [] + [ns[k]];
    NodeSetPush([], ns[k]);
  }

  lemma CutOwned(ns: seq<Node>, i: nat, j: nat, live: set<Node>, elSize: nat)
    requires OwnedBy(ns, live, elSize) && Distinct(ns) && i <= j < |ns|
    ensures NodeSet(ns[i..j + 1]) <= live
    ensures OwnedBy(Cut(ns, i, j), live - NodeSet(ns[i..j + 1]), elSize)
  {
    OwnedEach(ns, live, elSize);
    CutDistinct(ns, i, j);
    CutAt(ns, i, j);
    var r, out := Cut(ns, i, j), ns[i..j + 1];
    forall n | n in NodeSet(out) ensures n in live {
      NodeSetMember(out, n);
      assert n in ns;
    }
    forall k | 0 <= k < |r| ensures r[k] in live - NodeSet(out) && |r[k].data| == elSize {
      assert r[k] == ns[if k < i then k else k + (j + 1 - i)];
      NodeSetMember(out, r[k]);
    }
    OwnedEach(r, live - NodeSet(out), elSize);
  }

  lemma PayloadsCut(ns: seq<Node>, i: nat, j: nat)
    requires i <= j < |ns|
    ensures Payloads(Cut(ns, i, j)) == Cut(Payloads(ns), i, j)
  {
    PayloadsConcat(ns[..i], ns[j + 1..]);
  }

  /** Closing the chain over the nodes `first` to `last`, whose own links stay as they are. */
  method Unlink(first: Node, last: Node, atStart: bool, atEnd: bool, ghost ns: seq<Node>, ghost i: nat, ghost j: nat)
    requires i <= j < |ns| && first == ns[i] && last == ns[j]
    requires atStart == (i == 0) && atEnd == (j == |ns| - 1)
    requires Distinct(ns) && ForwardChain(ns) && BackwardChain(ns)
    modifies ns
    ensures ForwardChain(Cut(ns, i, j)) && BackwardChain(Cut(ns, i, j))
    ensures forall k :: i <= k < j ==> ns[k].next == ns[k + 1]
  {
    hide Cut, Distinct;
    if i > 0 {
      OnlyAt(ns, i - 1);
    }
    if j + 1 < |ns| {
      OnlyAt(ns, j + 1);
    }
    ForwardLinks(ns);
    BackwardLinks(null, ns);
    if !atStart {
      first.prev.next := last.next;
    }
    if !atEnd {
      last.next.prev := first.prev;
    }
    CutChains(ns, i, j);
  }

  /** When the links around the nodes `i` to `j` skip these, the other nodes are a chain. */
  lemma CutChains(ns: seq<Node>, i: nat, j: nat)
    requires i <= j < |ns|
    requires forall m {:trigger ns[m].next} :: 0 <= m < |ns| ==>
               ns[m].next == if m + 1 == i then After(ns, j) else After(ns, m)
    requires forall m {:trigger ns[m].prev} :: 0 <= m < |ns| ==>
               ns[m].prev == if m == j + 1 then Before(ns, i) else Before(ns, m)
    ensures ForwardChain(Cut(ns, i, j)) && BackwardChain(Cut(ns, i, j))
  {
    hide Cut, ForwardChain, BackwardFrom;
    var r, gap := Cut(ns, i, j), j + 1 - i;
    CutAt(ns, i, j);
    forall k {:trigger r[k].next} | 0 <= k < |r|
      ensures r[k].next == if k + 1 < |r| then r[k + 1] else null
    {
      assert r[k] == ns[if k < i then k else k + gap];
    }
    forall k {:trigger r[k].prev} | 0 <= k < |r|
      ensures r[k].prev == if k > 0 then r[k - 1] else null
    {
      assert r[k] == ns[if k < i then k else k + gap];
    }
    ForwardLinks(r);
    BackwardLinks(null, r);
  }

  ghost function After(ns: seq<Node>, k: nat): Node?
    requires k < |ns|
  {
    if k + 1 < |ns| then ns[k + 1] else null
  }

  ghost function Before(ns: seq<Node>, k: nat): Node?
    requires k < |ns|
  {
    if k > 0 then ns[k - 1] else null
  }

  /** Node `k` is still live after the nodes `i..k` have been given back. */
  lemma ReleasedNext(ns: seq<Node>, i: nat, k: nat, live: set<Node>, elSize: nat)
    requires Distinct(ns) && OwnedBy(ns, live, elSize) && i <= k < |ns|
    ensures ns[k] in live - NodeSet(ns[i..k])
    ensures NodeSet(ns[i..k + 1]) == NodeSet(ns[i..k]) + {ns[k]}
  {
    hide Distinct, OwnedBy, NodeSet;
    OnlyAt(ns, k);
    OwnedEach(ns, live, elSize);
    assert ns[k] !in ns[i..k];
    NodeSetMember(ns[i..k], ns[k]);
    assert ns[i..k + 1] == ns[i..k] + [ns[k]];
    NodeSetPush(ns[i..k], ns[k]);
  }

  /** The release loop of the range removal. */
  method ReleaseRange(ally: Ally, ghost ns: seq<Node>, first: Node, last: Node,
                      ghost i: nat, ghost j: nat, ghost elSize: nat)
    requires i <= j < |ns| && first == ns[i] && last == ns[j]
    requires Distinct(ns) && OwnedBy(ns, ally.live, elSize)
    requires forall k :: i <= k < j ==> ns[k].next == ns[k + 1]
    modifies ally
    ensures ally.live == old(ally.live) - NodeSet(ns[i..j + 1])
  {
    var curr: Node? := first;
    ghost var k := i;
    while curr != null
      invariant i <= k <= j && curr == ns[k]
      invariant ally.live == old(ally.live) - NodeSet(ns[i..k])
      decreases j - k
    {
      ReleasedNext(ns, i, k, old(ally.live), elSize);
      ally.FreeElem(curr);
      if curr == last {
        DistinctPairs(ns);
        return;
      }
      curr := curr.next;
      k := k + 1;
    }
  }

  /** The release loop of the clearing operation. */
  method ReleaseAll(ally: Ally, ghost ns: seq<Node>, start: Node?, ghost elSize: nat)
    requires start == Head(ns) && ForwardChain(ns)
    requires Distinct(ns) && OwnedBy(ns, ally.live, elSize)
    modifies ally
    ensures ally.live == old(ally.live) - NodeSet(ns)
  {
    var elem := start;
    ghost var k := 0;
    ForwardLinks(ns);
    while elem != null
      invariant k <= |ns| && elem == if k < |ns| then ns[k] else null
      invariant ally.live == old(ally.live) - NodeSet(ns[0..k])
      decreases |ns| - k
    {
      ReleasedNext(ns, 0, k, old(ally.live), elSize);
      var next := elem.next;
      ally.FreeElem(elem);
      elem := next;
      k := k + 1;
    }
    assert ns[0..k] == ns;
  }

  /** The body of the copy loop: a new node after the last one. */
  method AppendNode(ally: Ally, ghost ns: seq<Node>, prev: Node?, data: seq<byte>) returns (curr: Node)
    requires Distinct(ns) && ForwardChain(ns) && BackwardChain(ns)
    requires prev == if ns == [] then null else ns[|ns| - 1]
    modifies ally, ns
    ensures fresh(curr) && curr.data == data && ally.live == old(ally.live) + {curr}
    ensures Distinct(ns + [curr]) && ForwardChain(ns + [curr]) && BackwardChain(ns + [curr])
  {
    curr := ally.AllocElem(data);
    DistinctPairs(ns);
    DistinctPairs(ns + [curr]);
    ForwardLinks(ns);
    BackwardLinks(null, ns);
    if prev != null {
      prev.next := curr;
    }
    curr.prev := prev;
    ForwardLinks(ns + [curr]);
    BackwardLinks(null, ns + [curr]);
  }

  lemma EmptyOwned(live: set<Node>, elSize: nat)
    ensures Distinct([]) && ForwardChain([]) && BackwardFrom(null, []) && OwnedBy([], live, elSize)
  {}

  /** A strided array, as it is while it is being read. */
  datatype FixedList = FixedList(stride: nat, elSize: nat, len: nat, data: seq<byte>) {
    predicate Valid() { Fits(|data|, 0, stride, len, elSize) }

    function All(): (xs: seq<seq<byte>>)
      requires Valid()
      ensures |xs| == len && forall i :: 0 <= i < |xs| ==> |xs[i]| == elSize
    {
      Elements(data, 0, stride, len, elSize)
    }

    static lemma Single(x: seq<byte>)
      ensures FixedList(|x|, |x|, 1, x).Valid()
      ensures FixedList(|x|, |x|, 1, x).All() == [x]
    {
      ElementsAt(x, 0, |x|, 1, |x|, 0);
      assert x[0..|x|] == x;
    }

    lemma At(i: nat, pos: nat)
      requires Valid() && i < len && pos == Start(0, stride, i)
      ensures pos + elSize <= |data| && All()[i] == data[pos..pos + elSize]
      ensures Start(0, stride, i + 1) == pos + stride
    {
      ElementsAt(data, 0, stride, len, elSize, i);
      StartChain(0, stride, i);
    }
  }

  /** The copy loop: one linked node per element, in order. */
  method CopyChain(ally: Ally, fixed: FixedList)
    returns (first: Node?, prev: Node?, ghost ns: seq<Node>)
    requires fixed.Valid()
    modifies ally
    ensures |ns| == fixed.len && forall k :: 0 <= k < |ns| ==> ns[k].data == fixed.All()[k]
    ensures Distinct(ns) && ForwardChain(ns) && BackwardChain(ns)
    ensures first == if ns == [] then null else ns[0]
    ensures prev == if ns == [] then null else ns[|ns| - 1]
    ensures fresh(ns) && ally.live == old(ally.live) + NodeSet(ns)
  {
    hide Payloads, Distinct, ForwardChain, BackwardFrom, NodeSet;
    StartZero(0, fixed.stride);
    ghost var all := fixed.All();
    NoPayloads();
    EmptyOwned(ally.live, 0);
    NodeSetNone();
    first, prev, ns := null, null, [];
    var pos := 0;
    for i := 0 to fixed.len
      invariant |ns| == i && Payloads(ns) == all[..i]
      invariant Distinct(ns) && ForwardChain(ns) && BackwardChain(ns)
      invariant first == if i == 0 then null else ns[0]
      invariant prev == if i == 0 then null else ns[i - 1]
      invariant fresh(ns) && ally.live == old(ally.live) + NodeSet(ns)
      invariant pos == Start(0, fixed.stride, i)
    {
      fixed.At(i, pos);
      var curr := AppendNode(ally, ns, prev, fixed.data[pos..pos + fixed.elSize]);
      if i == 0 {
        first := curr;
      }
      prev := curr;
      pos := pos + fixed.stride;
      NodeSetPush(ns, curr);
      PayloadsPush(ns, curr);
      ns := ns + [curr];
    }
    assert all[..fixed.len] == all;
  }

  lemma NodeSetNone()
    ensures NodeSet([]) == {}
  {}

  lemma NoPayloads()
    ensures Payloads([]) == []
  {}

  lemma PayloadsPush(ns: seq<Node>, x: Node)
    ensures Payloads(ns + [x]) == Payloads(ns) + [x.data]
  {}

  datatype FindResult = NotFound | Found(link: Node, index: nat)

  class DoubleLinkedList {
    var size: nat
    var elSize: nat
    var start: Node?
    var end: Node?
    var ally: Ally
    ghost var nodes: seq<Node>

    constructor (elSize: nat, ally: Ally)
      ensures Valid() && nodes == [] && this.elSize == elSize && this.ally == ally
    {
      size := 0;
      this.elSize := elSize;
      start := null;
      end := null;
      this.ally := ally;
      nodes := [];
    }

    /** The list is reachable from its start: the `next` chain runs through `nodes`. */
    ghost predicate Forward()
      reads this, nodes
    {
      && size == |nodes|
      && start == Head(nodes) && end == Last(nodes)
      && Distinct(nodes)
      && ForwardChain(nodes)
    }

    /** The nodes are live and hold elements of the list's size. */
    ghost predicate Owned()
      reads this, nodes, ally
    {
      OwnedBy(nodes, ally.live, elSize)
    }

    ghost predicate Valid()
      reads this, nodes, ally
    {
      Forward() && BackwardChain(nodes) && Owned()
    }

    ghost function Contents(): (xs: seq<seq<byte>>)
      reads this
    {
      Payloads(nodes)
    }

    /** Builds a list out of a strided array. The start of an empty one is left as it was. */
    method CopyFromFixed(ally: Ally, fixed: FixedList)
      requires fixed.Valid()
      modifies this, ally
      ensures this.ally == ally && elSize == fixed.elSize && size == fixed.len == |nodes|
      ensures fixed.len > 0 ==> Valid()
      ensures Contents() == fixed.All()
      ensures fresh(nodes) && ally.live == old(ally.live) + NodeSet(nodes)
    {
      elSize := fixed.elSize;
      size := fixed.len;
      this.ally := ally;
      var first, last, ns := CopyChain(ally, fixed);
      if fixed.len > 0 {
        start := first;
      }
      end := last;
      nodes := ns;
      forall n | n in ns ensures n in ally.live {
        NodeSetMember(ns, n);
      }
      OwnedEach(ns, ally.live, elSize);
    }

    /** Splices all nodes of `other` after the last node and empties `other`. When this list is
        empty and `other` is not, the start is never set: the elements cannot be reached. */
    method AddAllClearOld(other: DoubleLinkedList)
      requires Valid() && (other.Valid() || other.size == 0 == |other.nodes|)
      requires this != other && ally == other.ally && elSize == other.elSize
      requires Disjoint(nodes, other.nodes)
      modifies this, nodes, other, other.nodes
      ensures nodes == old(nodes) + old(other.nodes)
      ensures Contents() == old(Contents()) + old(other.Contents())
      ensures other.size == 0 == |other.nodes| && (old(other.Valid()) ==> other.Valid())
      ensures Valid() <==> old(nodes) != [] || old(other.nodes) == []
      ensures ally == old(ally) && elSize == old(elSize)
      ensures other.ally == old(other.ally) && other.elSize == old(other.elSize)
    {
      PayloadsConcat(nodes, other.nodes);
      if other.size > 0 {
        SpliceBack(other);
      }
    }

    method SpliceBack(other: DoubleLinkedList)
      requires Valid() && other.Valid() && other.size > 0
      requires this != other && ally == other.ally && elSize == other.elSize
      requires Disjoint(nodes, other.nodes)
      modifies this, nodes, other, other.nodes
      ensures nodes == old(nodes) + old(other.nodes)
      ensures Valid() <==> old(nodes) != []
      ensures other.size == 0 == |other.nodes| && other.Valid()
      ensures ally == old(ally) && elSize == old(elSize)
      ensures other.ally == old(other.ally) && other.elSize == old(other.elSize)
    {
      hide Distinct, OwnedBy, ForwardChain, BackwardFrom;
      ghost var a, b := nodes, other.nodes;
      EmptyOwned(ally.live, elSize);
      DistinctConcat(a, b);
      OwnedConcat(a, b, ally.live, elSize);
      if end != null {
        Join(end, other.start, a, b);
      }
      size := size + other.size;
      end := other.end;
      if start == null {
        other.start := start;
      }
      other.end := null;
      other.start := null;
      other.size := 0;
      nodes, other.nodes := a + b, [];
    }

    /** Splices all nodes of `other` before the first node and empties `other`. */
    method AddAllFrontClearOld(other: DoubleLinkedList)
      requires Valid() && (other.Valid() || other.size == 0 == |other.nodes|)
      requires this != other && ally == other.ally && elSize == other.elSize
      requires Disjoint(nodes, other.nodes)
      modifies this, nodes, other, other.nodes
      ensures nodes == old(other.nodes) + old(nodes) && Valid()
      ensures Contents() == old(other.Contents()) + old(Contents())
      ensures other.size == 0 == |other.nodes| && (old(other.Valid()) ==> other.Valid())
      ensures ally == old(ally) && elSize == old(elSize)
      ensures other.ally == old(other.ally) && other.elSize == old(other.elSize)
    {
      PayloadsConcat(other.nodes, nodes);
      if other.size > 0 {
        SpliceFront(other);
      }
    }

    method SpliceFront(other: DoubleLinkedList)
      requires Valid() && other.Valid() && other.size > 0
      requires this != other && ally == other.ally && elSize == other.elSize
      requires Disjoint(nodes, other.nodes)
      modifies this, nodes, other, other.nodes
      ensures nodes == old(other.nodes) + old(nodes) && Valid()
      ensures other.size == 0 == |other.nodes| && other.Valid()
      ensures ally == old(ally) && elSize == old(elSize)
      ensures other.ally == old(other.ally) && other.elSize == old(other.elSize)
    {
      hide Distinct, OwnedBy, ForwardChain, BackwardFrom;
      ghost var a, b := other.nodes, nodes;
      EmptyOwned(ally.live, elSize);
      assert b == [] ==> a + b == a;
      DisjointSwap(b, a);
      DistinctConcat(a, b);
      OwnedConcat(a, b, ally.live, elSize);
      if start != null {
        Join(other.end, start, a, b);
      }
      size := size + other.size;
      start := other.start;
      if end == null {
        end := other.end;
      }
      other.end := null;
      other.start := null;
      other.size := 0;
      nodes, other.nodes := a + b, [];
    }

    /** The temporary list of one element that front insertion splices in. */
    method CopyOne(data: seq<byte>) returns (temp: DoubleLinkedList)
      requires |data| == elSize
      modifies ally
      ensures fresh(temp) && temp.Valid() && temp.ally == ally && temp.elSize == elSize
      ensures |temp.nodes| == 1 && fresh(temp.nodes[0]) && temp.nodes[0].data == data
      ensures ally.live == old(ally.live) + {temp.nodes[0]}
    {
      FixedList.Single(data);
      temp := new DoubleLinkedList(elSize, ally);
      temp.CopyFromFixed(ally, FixedList(elSize, elSize, 1, data));
      assert temp.Contents()[0] == data;
      assert temp.nodes == [] + [temp.nodes[0]];
      NodeSetPush([], temp.nodes[0]);
    }

    method AddFront(data: seq<byte>) returns (ghost elem: Node)
      requires Valid() && |data| == elSize
      modifies this, nodes, ally
      ensures Valid() && fresh(elem) && nodes == [elem] + old(nodes)
      ensures Contents() == [data] + old(Contents())
      ensures ally == old(ally) && elSize == old(elSize)
      ensures ally.live == old(ally.live) + {elem}
    {
      var temp := CopyOne(data);
      elem := temp.nodes[0];
      assert temp.nodes == [elem];
      OwnedGrow(nodes, old(ally.live), ally.live, elSize);
      AddAllFrontClearOld(temp);
      PayloadsConcat([elem], old(nodes));
    }

    /** Inserts after a node of the list, or at the front when there is none. For a node that
        has a successor the `next` chain is right but the successor's `prev` link is not moved. */
    method InsertAfter(after: Node?, data: seq<byte>) returns (ghost k: nat, ghost elem: Node)
      requires Valid() && |data| == elSize
      requires after != null ==> after in nodes
      modifies this, nodes, ally
      ensures k <= |old(nodes)| && if after == null then k == 0 else k > 0 && after == old(nodes)[k - 1]
      ensures fresh(elem) && nodes == Insert(old(nodes), k, elem)
      ensures Contents() == Insert(old(Contents()), k, data)
      ensures Forward() && Owned()
      ensures Valid() <==> k == 0 || k == |old(nodes)|
      ensures ally == old(ally) && elSize == old(elSize)
      ensures ally.live == old(ally.live) + {elem}
    {
      if after == null {
        k := 0;
        elem := AddFront(data);
        InsertFirst(old(nodes), elem);
        InsertFirst(old(Contents()), data);
      } else {
        ghost var j :| 0 <= j < |nodes| && nodes[j] == after;
        k := j + 1;
        elem := InsertBehind(after, data, k);
        PayloadsInsert(old(nodes), k, elem);
      }
    }

    method InsertBehind(after: Node, data: seq<byte>, ghost k: nat) returns (elem: Node)
      requires Valid() && |data| == elSize
      requires 0 < k <= |nodes| && after == nodes[k - 1]
      modifies this, nodes, ally
      ensures fresh(elem) && nodes == Insert(old(nodes), k, elem) && elem.data == data
      ensures Forward() && Owned()
      ensures Valid() <==> k == |old(nodes)|
      ensures ally == old(ally) && elSize == old(elSize)
      ensures ally.live == old(ally.live) + {elem}
    {
      ghost var ns := nodes;
      elem := ally.AllocElem(data);
      InsertDistinct(ns, k, elem);
      OwnedInsert(ns, k, elem, old(ally.live), elSize);
      Hook(after, elem, ns, k);
      if after == end {
        DistinctEnds(ns, k - 1);
        end := elem;
      }
      size := size + 1;
      nodes := Insert(ns, k, elem);
    }

    method Add(data: seq<byte>) returns (ghost elem: Node)
      requires Valid() && |data| == elSize
      modifies this, nodes, ally
      ensures Valid() && fresh(elem) && nodes == old(nodes) + [elem]
      ensures Contents() == old(Contents()) + [data]
      ensures ally == old(ally) && elSize == old(elSize)
      ensures ally.live == old(ally.live) + {elem}
    {
      ghost var ns := nodes;
      ghost var k;
      k, elem := InsertAfter(end, data);
      if ns != [] {
        DistinctEnds(ns, k - 1);
      }
      assert ns[k..] == [] && old(Contents())[k..] == [];
    }

    /** The updates that both removals make to the list, without giving anything back. */
    method Detach(first: Node, last: Node, atStart: bool, atEnd: bool, removed: nat, ghost i: nat, ghost j: nat)
      requires Forward() && BackwardChain(nodes)
      requires i <= j < |nodes| && first == nodes[i] && last == nodes[j] && removed == j + 1 - i
      requires atStart == (i == 0) && atEnd == (j == |nodes| - 1)
      modifies this`start, this`end, this`size, this`nodes, nodes
      ensures nodes == Cut(old(nodes), i, j) && Forward() && BackwardChain(nodes)
      ensures forall k :: i <= k < j ==> old(nodes)[k].next == old(nodes)[k + 1]
    {
      ghost var ns := nodes;
      LinksAt(ns, i);
      LinksAt(ns, j);
      CutDistinct(ns, i, j);
      CutEnds(ns, i, j);
      if atStart {
        start := last.next;
      }
      if atEnd {
        end := first.prev;
      }
      Unlink(first, last, atStart, atEnd, ns, i, j);
      size := size - removed;
      nodes := Cut(ns, i, j);
      assert ForwardChain(nodes) && BackwardChain(nodes);
    }

    /** Takes one node out of the list and gives it back. */
    method Remove(element: Node) returns (ghost k: nat)
      requires Valid() && element in nodes
      modifies this, nodes, ally
      ensures Valid() && k < |old(nodes)| && element == old(nodes)[k]
      ensures nodes == Cut(old(nodes), k, k) && Contents() == Cut(old(Contents()), k, k)
      ensures ally == old(ally) && elSize == old(elSize)
      ensures ally.live == old(ally.live) - {element}
    {
      k :| 0 <= k < |nodes| && nodes[k] == element;
      CutOwned(nodes, k, k, ally.live, elSize);
      NodeSetOne(nodes, k);
      PayloadsCut(nodes, k, k);
      DistinctEnds(nodes, k);
      Detach(element, element, start == element, end == element, 1, k, k);
      ally.FreeElem(element);
    }

    /** Takes the nodes from `first` to `last` out of the list and gives each of them back once.
        The loop reads the successor of a node it has already given back. */
    method RemoveMultiple(first: Node, last: Node, removed: nat, ghost i: nat, ghost j: nat)
      requires Valid() && i <= j < |nodes| && first == nodes[i] && last == nodes[j]
      requires removed == j + 1 - i
      modifies this, nodes, ally
      ensures Valid() && nodes == Cut(old(nodes), i, j) && Contents() == Cut(old(Contents()), i, j)
      ensures ally == old(ally) && elSize == old(elSize)
      ensures ally.live == old(ally.live) - NodeSet(old(nodes)[i..j + 1])
    {
      CutOwned(nodes, i, j, ally.live, elSize);
      PayloadsCut(nodes, i, j);
      LinksAt(nodes, i);
      LinksAt(nodes, j);
      Detach(first, last, first.prev == null, last.next == null, removed, i, j);
      ReleaseRange(ally, old(nodes), first, last, i, j, elSize);
    }

    /** Gives every node back, reading its successor first. */
    method Clear()
      requires Valid()
      modifies this, ally
      ensures Valid() && nodes == [] && ally == old(ally) && elSize == old(elSize)
      ensures ally.live == old(ally.live) - NodeSet(old(nodes))
    {
      ReleaseAll(ally, nodes, start, elSize);
      start := null;
      end := null;
      size := 0;
      nodes := [];
    }

    /** The node at a position, walked to from the nearer end. */
    method LinkAt(index: nat) returns (elem: Node?)
      requires Valid()
      ensures elem == if index < |nodes| then nodes[index] else null
    {
      if index >= size {
        return null;
      }
      ForwardLinks(nodes);
      BackwardLinks(null, nodes);
      var half := size / 2;
      if index < half {
        var curr := 0;
        elem := start;
        while curr != index
          invariant curr <= index && elem == nodes[curr]
          decreases index - curr
        {
          elem := elem.next;
          curr := curr + 1;
        }
      } else {
        var curr := size - 1;
        elem := end;
        while curr != index
          invariant index <= curr < |nodes| && elem == nodes[curr]
          decreases curr - index
        {
          elem := elem.prev;
          curr := curr - 1;
        }
      }
    }

    /** The first node that holds the element. */
    method Find(element: seq<byte>) returns (r: FindResult)
      requires Valid() && |element| == elSize
      ensures r.NotFound? <==> element !in Contents()
      ensures r.Found? ==>
        && r.index < |nodes| && r.link == nodes[r.index] && Contents()[r.index] == element
        && forall m :: 0 <= m < r.index ==> Contents()[m] != element
    {
      ForwardLinks(nodes);
      var index := 0;
      var elem := start;
      while elem != null
        invariant index <= |nodes| && elem == if index < |nodes| then nodes[index] else null
        invariant forall m :: 0 <= m < index ==> Contents()[m] != element
        decreases |nodes| - index
      {
        if elem.data == element {
          return Found(elem, index);
        }
        elem := elem.next;
        index := index + 1;
      }
      return NotFound;
    }

    /** The last node that holds the element. The index runs one below zero at the end. */
    method FindLast(element: seq<byte>) returns (r: FindResult)
      requires Valid() && |element| == elSize
      ensures r.NotFound? <==> element !in Contents()
      ensures r.Found? ==>
        && r.index < |nodes| && r.link == nodes[r.index] && Contents()[r.index] == element
        && forall m :: r.index < m < |nodes| ==> Contents()[m] != element
    {
      BackwardLinks(null, nodes);
      var index: int := size - 1;
      var elem := end;
      while elem != null
        invariant -1 <= index < |nodes| && elem == if index >= 0 then nodes[index] else null
        invariant forall m :: index < m < |nodes| ==> Contents()[m] != element
        decreases index
      {
        if elem.data == element {
          return Found(elem, index);
        }
        elem := elem.prev;
        index := index - 1;
      }
      return NotFound;
    }

    /** Appends every element to a dynamic list, in order. */
    method FlattenInto(dest: DynamicList.DynamicList)
      requires Valid() && dest.Valid() && dest.stride == elSize
      requires dest.len + size <= MAX_LEN
      modifies dest, dest.data
      ensures dest.Valid() && Valid()
      ensures dest.model.elems == old(dest.model.elems) + Filled(Contents())
    {
      hide Filled;
      ForwardLinks(nodes);
      OwnedEach(nodes, ally.live, elSize);
      dest.Reserve(size);
      ghost var was := dest.model.elems;
      FilledNothing(was, Contents());
      var elem := start;
      ghost var k := 0;
      while elem != null
        invariant k <= |nodes| && elem == if k < |nodes| then nodes[k] else null
        invariant dest.Valid() && (dest.data == old(dest.data) || fresh(dest.data))
        invariant dest.model.elems == old(dest.model.elems) + Filled(Contents()[..k])
        decreases |nodes| - k
      {
        FilledPush(was, Contents(), k);
        dest.Add(elem.data);
        elem := elem.next;
        k := k + 1;
      }
      assert Contents()[..k] == Contents();
    }
  }

  lemma FilledNothing(before: seq<Slot>, xs: seq<seq<byte>>)
    ensures before + Filled(xs[..0]) == before
  {}

  lemma FilledPush(before: seq<Slot>, xs: seq<seq<byte>>, k: nat)
    requires k < |xs|
    ensures before + Filled(xs[..k + 1]) == before + Filled(xs[..k]) + [Holds(xs[k])]
    ensures |before + Filled(xs[..k])| == |before| + k
  {}

  /** Copying a strided array into a linked list and flattening the list into a dynamic list
      appends exactly the elements of the array, in order. */
  method CopyThenFlatten(fixed: FixedList, ally: Ally, dest: DynamicList.DynamicList)
    requires fixed.Valid() && fixed.len > 0 && fixed.elSize == dest.stride
    requires dest.Valid() && dest.len + fixed.len <= MAX_LEN
    modifies ally, dest, dest.data
    ensures dest.Valid()
    ensures dest.model.elems == old(dest.model.elems) + Filled(fixed.All())
  {
    var list := new DoubleLinkedList(fixed.elSize, ally);
    list.CopyFromFixed(ally, fixed);
    list.FlattenInto(dest);
  }
}
