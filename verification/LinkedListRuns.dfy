/** Runs of operations over several lists of `linked_list/` that share an allocator. */
module LinkedListRuns {
  import opened Bytes
  import opened LinkedList

  type Element = seq<byte>

  /** `on`, `dest` and `src` number the lists. */
  datatype Op =
    | PushFront(on: nat, x: Element)
    | Push(on: nat, x: Element)
    | SpliceFront(dest: nat, src: nat)
    | SpliceBack(dest: nat, src: nat)
    | RemoveAt(on: nat, k: nat)
    | RemoveRange(on: nat, first: nat, last: nat)
    | Clear(on: nat)

  // ---- What the operations mean -----------------------------------------------------------

  /** What an operation on one list demands: an element of the right size, positions that exist. */
  predicate LegalOn(contents: seq<Element>, elSize: nat, op: Op)
    requires !op.SpliceFront? && !op.SpliceBack?
  {
    match op
    case PushFront(_, x) => |x| == elSize
    case Push(_, x) => |x| == elSize
    case RemoveAt(_, k) => k < |contents|
    case RemoveRange(_, first, last) => first <= last < |contents|
    case Clear(_) => true
  }

  function StepOn(contents: seq<Element>, elSize: nat, op: Op): seq<Element>
    requires !op.SpliceFront? && !op.SpliceBack? && LegalOn(contents, elSize, op)
  {
    match op
    case PushFront(_, x) => [x] + contents
    case Push(_, x) => contents + [x]
    case RemoveAt(_, k) => contents[..k] + contents[k + 1..]
    case RemoveRange(_, first, last) => contents[..first] + contents[last + 1..]
    case Clear(_) => []
  }

  /** Lists that exist, two different ones for a splice, and a receiver that is not empty when
      elements are appended to it. */
  predicate Legal(st: seq<seq<Element>>, elSize: nat, op: Op) {
    match op
    case SpliceFront(dest, src) => dest < |st| && src < |st| && dest != src
    case SpliceBack(dest, src) =>
      dest < |st| && src < |st| && dest != src && (st[dest] != [] || st[src] == [])
    case _ => op.on < |st| && LegalOn(st[op.on], elSize, op)
  }

  function Step(st: seq<seq<Element>>, elSize: nat, op: Op): (next: seq<seq<Element>>)
    requires Legal(st, elSize, op)
    ensures |next| == |st|
  {
    match op
    case SpliceFront(dest, src) => st[dest := st[src] + st[dest]][src := []]
    case SpliceBack(dest, src) => st[dest := st[dest] + st[src]][src := []]
    case _ => st[op.on := StepOn(st[op.on], elSize, op)]
  }

  /** `after` holds the elements of `a`, then those of `b`. */
  predicate Follows(a: seq<Element>, b: seq<Element>, after: seq<Element>) {
    && |after| == |a| + |b|
    && (forall i :: 0 <= i < |a| ==> after[i] == a[i])
    && (forall i :: |a| <= i < |after| ==> after[i] == b[i - |a|])
  }

  /** Elements `first` to `last` are gone, and the later ones have moved up. */
  predicate Removed(before: seq<Element>, first: nat, last: nat, after: seq<Element>)
    requires first <= last < |before|
  {
    && |after| == |before| - (last - first + 1)
    && (forall i :: 0 <= i < first ==> after[i] == before[i])
    && (forall i :: first <= i < |after| ==> after[i] == before[i + (last - first + 1)])
  }

  predicate OthersStay(st: seq<seq<Element>>, i: nat, j: nat, next: seq<seq<Element>>) {
    |next| == |st| && forall k :: 0 <= k < |st| && k != i && k != j ==> next[k] == st[k]
  }

  /** What an operation means, position by position. */
  predicate Means(st: seq<seq<Element>>, elSize: nat, op: Op, next: seq<seq<Element>>)
    requires Legal(st, elSize, op)
  {
    match op
    case PushFront(on, x) => OthersStay(st, on, on, next) && Follows([x], st[on], next[on])
    case Push(on, x) => OthersStay(st, on, on, next) && Follows(st[on], [x], next[on])
    case SpliceFront(dest, src) =>
      OthersStay(st, dest, src, next) && Follows(st[src], st[dest], next[dest]) && next[src] == []
    case SpliceBack(dest, src) =>
      OthersStay(st, dest, src, next) && Follows(st[dest], st[src], next[dest]) && next[src] == []
    case RemoveAt(on, k) => OthersStay(st, on, on, next) && Removed(st[on], k, k, next[on])
    case RemoveRange(on, first, last) => OthersStay(st, on, on, next) && Removed(st[on], first, last, next[on])
    case Clear(on) => OthersStay(st, on, on, next) && next[on] == []
  }

  lemma FollowsIff(a: seq<Element>, b: seq<Element>, after: seq<Element>)
    ensures Follows(a, b, after) <==> after == a + b
  {}

  lemma RemovedIff(before: seq<Element>, first: nat, last: nat, after: seq<Element>)
    requires first <= last < |before|
    ensures Removed(before, first, last, after) <==> after == before[..first] + before[last + 1..]
  {}

  lemma OthersStayIff(st: seq<seq<Element>>, i: nat, j: nat, next: seq<seq<Element>>, a: seq<Element>, b: seq<Element>)
    requires i < |st| && j < |st| && (i == j ==> a == b)
    ensures next == st[i := a][j := b] <==> OthersStay(st, i, j, next) && next[i] == a && next[j] == b
  {}

  /** A step has this meaning, and no other contents have it. */
  lemma StepIff(st: seq<seq<Element>>, elSize: nat, op: Op, next: seq<seq<Element>>)
    requires Legal(st, elSize, op)
    ensures next == Step(st, elSize, op) <==> Means(st, elSize, op, next)
  {
    hide Follows, Removed, OthersStay;
    var after := Step(st, elSize, op);
    match op {
      case SpliceFront(dest, src) =>
        OthersStayIff(st, dest, src, next, st[src] + st[dest], []);
        if OthersStay(st, dest, src, next) {
          StayInside(st, dest, src, next);
          FollowsIff(st[src], st[dest], next[dest]);
        }
      case SpliceBack(dest, src) =>
        OthersStayIff(st, dest, src, next, st[dest] + st[src], []);
        if OthersStay(st, dest, src, next) {
          StayInside(st, dest, src, next);
          FollowsIff(st[dest], st[src], next[dest]);
        }
      case _ =>
        OthersStayIff(st, op.on, op.on, next, after[op.on], after[op.on]);
        if OthersStay(st, op.on, op.on, next) {
          StayInside(st, op.on, op.on, next);
          OneListIff(st[op.on], elSize, op, next[op.on]);
        }
    }
  }

  lemma StayInside(st: seq<seq<Element>>, i: nat, j: nat, next: seq<seq<Element>>)
    requires OthersStay(st, i, j, next)
    ensures |next| == |st|
  {}

  lemma OneListIff(contents: seq<Element>, elSize: nat, op: Op, after: seq<Element>)
    requires !op.SpliceFront? && !op.SpliceBack? && LegalOn(contents, elSize, op)
    ensures op.PushFront? ==> (after == StepOn(contents, elSize, op) <==> Follows([op.x], contents, after))
    ensures op.Push? ==> (after == StepOn(contents, elSize, op) <==> Follows(contents, [op.x], after))
    ensures op.RemoveAt? ==> (after == StepOn(contents, elSize, op) <==> Removed(contents, op.k, op.k, after))
    ensures op.RemoveRange? ==>
              (after == StepOn(contents, elSize, op) <==> Removed(contents, op.first, op.last, after))
    ensures op.Clear? ==> (after == StepOn(contents, elSize, op) <==> after == [])
  {
    hide Follows, Removed;
    match op {
      case PushFront(_, x) => FollowsIff([x], contents, after);
      case Push(_, x) => FollowsIff(contents, [x], after);
      case RemoveAt(_, k) => RemovedIff(contents, k, k, after);
      case RemoveRange(_, first, last) => RemovedIff(contents, first, last, after);
      case Clear(_) =>
    }
  }

  predicate LegalRun(st: seq<seq<Element>>, elSize: nat, ops: seq<Op>)
    decreases |ops|
  {
    ops == [] || (Legal(st, elSize, ops[0]) && LegalRun(Step(st, elSize, ops[0]), elSize, ops[1..]))
  }

  function Run(st: seq<seq<Element>>, elSize: nat, ops: seq<Op>): (next: seq<seq<Element>>)
    requires LegalRun(st, elSize, ops)
    ensures |next| == |st|
    decreases |ops|
  {
    if ops == [] then st else Run(Step(st, elSize, ops[0]), elSize, ops[1..])
  }

  /** A run of no operations changes nothing, and a run's last operation happens to what the run
      before it has left. */
  lemma {:induction false} RunPush(st: seq<seq<Element>>, elSize: nat, ops: seq<Op>, op: Op)
    requires LegalRun(st, elSize, ops + [op])
    ensures LegalRun(st, elSize, ops) && Legal(Run(st, elSize, ops), elSize, op)
    ensures Run(st, elSize, []) == st
    ensures Run(st, elSize, ops + [op]) == Step(Run(st, elSize, ops), elSize, op)
    decreases |ops|
  {
    hide Legal, Step;
    if ops == [] {
      assert ops + [op] == [op] && [op][1..] == [];
    } else {
      assert (ops + [op])[1..] == ops[1..] + [op];
      RunPush(Step(st, elSize, ops[0]), elSize, ops[1..], op);
    }
  }

  // ---- The nodes of several lists ---------------------------------------------------------

  ghost function Union(ns: seq<seq<Node>>): (all: set<Node>)
    ensures forall i, n :: 0 <= i < |ns| && n in ns[i] ==> n in all
  {
    set i, n | 0 <= i < |ns| && n in ns[i] :: n
  }

  /** No node is in two lists, and every node is live and holds an element of the right size. */
  ghost predicate Separate(ns: seq<seq<Node>>, live: set<Node>, elSize: nat) {
    && (forall i, j, n :: 0 <= i < |ns| && 0 <= j < |ns| && n in ns[i] && n in ns[j] ==> i == j)
    && (forall i :: 0 <= i < |ns| ==> OwnedBy(ns[i], live, elSize))
  }

  ghost function Texts(ns: seq<seq<Node>>): (st: seq<seq<Element>>)
    ensures |st| == |ns| && forall i :: 0 <= i < |ns| ==> st[i] == Payloads(ns[i])
  {
    seq(|ns|, i requires 0 <= i < |ns| => Payloads(ns[i]))
  }

  /** Nodes are owned as long as none of them is given back. */
  lemma OwnedStays(ns: seq<Node>, live: set<Node>, live': set<Node>, elSize: nat)
    requires OwnedBy(ns, live, elSize) && forall n :: n in ns && n in live ==> n in live'
    ensures OwnedBy(ns, live', elSize)
  {
    OwnedEach(ns, live, elSize);
    OwnedEach(ns, live', elSize);
  }

  lemma OwnedMember(ns: seq<Node>, live: set<Node>, elSize: nat, n: Node)
    requires OwnedBy(ns, live, elSize) && n in ns
    ensures n in live
  {
    OwnedEach(ns, live, elSize);
  }

  ghost function Members(ns: seq<Node>): set<Node> { set n | n in ns }

  /** The nodes of all lists but one. */
  ghost function Others(ns: seq<seq<Node>>, on: nat): set<Node> {
    set i, n | 0 <= i < |ns| && i != on && n in ns[i] :: n
  }

  lemma OthersSame(ns: seq<seq<Node>>, on: nat, m: seq<Node>)
    requires on < |ns|
    ensures Union(ns) == Members(ns[on]) + Others(ns, on)
    ensures Others(ns[on := m], on) == Others(ns, on)
  {
    var next := ns[on := m];
    forall n | n in Others(ns, on) ensures n in Others(next, on) && n in Union(ns) {
      var i :| 0 <= i < |ns| && i != on && n in ns[i];
      assert n in next[i];
    }
    forall n | n in Others(next, on) ensures n in Others(ns, on) {
      var i :| 0 <= i < |next| && i != on && n in next[i];
      assert n in ns[i];
    }
  }

  /** What an operation does to the nodes of a list: they are still owned, and the allocator keeps
      everything else. */
  ghost predicate Settled(ns: seq<Node>, live: set<Node>, m: seq<Node>, live': set<Node>, elSize: nat) {
    && OwnedBy(m, live', elSize)
    && live' - Members(m) == live - Members(ns)
    && forall n :: n in m ==> n in ns || n !in live
  }

  /** One list has other nodes: its old ones, or such that nobody held. */
  lemma Replaced(ns: seq<seq<Node>>, on: nat, m: seq<Node>, live: set<Node>, live': set<Node>, elSize: nat)
    requires Separate(ns, live, elSize) && on < |ns| && Settled(ns[on], live, m, live', elSize)
    ensures Separate(ns[on := m], live', elSize)
    ensures live' - Union(ns[on := m]) == live - Union(ns)
    ensures Union(ns[on := m]) <= Union(ns) + Members(m)
  {
    hide OwnedBy;
    var next := ns[on := m];
    forall i | 0 <= i < |next| ensures OwnedBy(next[i], live', elSize) {
      if i != on {
        forall n | n in ns[i] && n in live ensures n in live' { assert n in live - Members(ns[on]); }
        OwnedStays(ns[i], live, live', elSize);
      }
    }
    forall i, n | 0 <= i < |ns| && i != on && n in ns[i] ensures n !in m { OwnedMember(ns[i], live, elSize, n); }
    OthersSame(ns, on, m);
    OthersSame(next, on, m);
    assert live' - Union(next) == (live' - Members(m)) - Others(ns, on);
    assert live - Union(ns) == (live - Members(ns[on])) - Others(ns, on);
  }

  lemma TextsReplaced(ns: seq<seq<Node>>, on: nat, m: seq<Node>)
    requires on < |ns|
    ensures Texts(ns[on := m]) == Texts(ns)[on := Payloads(m)]
  {}

  /** All nodes of one list move into another, before or after its nodes. */
  lemma Moved(ns: seq<seq<Node>>, dest: nat, src: nat, m: seq<Node>, live: set<Node>, elSize: nat)
    requires Separate(ns, live, elSize) && dest < |ns| && src < |ns| && dest != src
    requires m == ns[src] + ns[dest] || m == ns[dest] + ns[src]
    ensures var next := ns[dest := m][src := []]; Separate(next, live, elSize) && Union(next) == Union(ns)
  {
    hide OwnedBy;
    var next := ns[dest := m][src := []];
    assert OwnedBy([], live, elSize) by { OwnedEach([], live, elSize); }
    OwnedConcat(ns[src], ns[dest], live, elSize);
    OwnedConcat(ns[dest], ns[src], live, elSize);
    forall n | n in Union(ns) ensures n in Union(next) {
      var i :| 0 <= i < |ns| && n in ns[i];
      assert n in next[if i == src then dest else i];
    }
    forall n | n in Union(next) ensures n in Union(ns) {
      var i :| 0 <= i < |next| && n in next[i];
      assert n in ns[i] || n in ns[src];
    }
  }

  // ---- The lists --------------------------------------------------------------------------

  /** A list with its nodes: both chains run through them. */
  ghost predicate Shaped(list: DoubleLinkedList, ally: Ally, elSize: nat, ns: seq<Node>)
    reads list, ns
  {
    && list.nodes == ns && list.ally == ally && list.elSize == elSize
    && list.Forward() && BackwardChain(ns)
  }

  /** Different lists of one allocator and element size, with their nodes. */
  ghost predicate Family(lists: seq<DoubleLinkedList>, ally: Ally, elSize: nat, ns: seq<seq<Node>>)
    reads lists, Union(ns)
  {
    && |lists| == |ns|
    && (forall i, j :: 0 <= i < j < |lists| ==> lists[i] != lists[j])
    && (forall i :: 0 <= i < |lists| ==> Shaped(lists[i], ally, elSize, ns[i]))
  }

  lemma AddedNode(ns: seq<Node>, live: set<Node>, m: seq<Node>, live': set<Node>, elSize: nat, x: Node)
    requires OwnedBy(ns, live, elSize) && OwnedBy(m, live', elSize)
    requires x !in live && live' == live + {x} && (m == [x] + ns || m == ns + [x])
    ensures Settled(ns, live, m, live', elSize)
  {
    hide OwnedBy;
    OwnedInside(ns, live, elSize);
    assert Members(m) == Members(ns) + {x};
  }

  lemma NodeSetIs(ns: seq<Node>)
    ensures NodeSet(ns) == Members(ns)
  {
    hide NodeSet;
    forall n | n in NodeSet(ns) ensures n in Members(ns) { NodeSetMember(ns, n); }
    forall n | n in Members(ns) ensures n in NodeSet(ns) { NodeSetMember(ns, n); }
  }

  lemma CutNodes(ns: seq<Node>, live: set<Node>, i: nat, j: nat, live': set<Node>, elSize: nat)
    requires Distinct(ns) && i <= j < |ns|
    requires live' == live - NodeSet(ns[i..j + 1]) && OwnedBy(Cut(ns, i, j), live', elSize)
    ensures Settled(ns, live, Cut(ns, i, j), live', elSize)
  {
    hide Distinct, OwnedBy, NodeSet;
    NodeSetIs(ns[i..j + 1]);
    assert ns == ns[..i] + ns[i..j + 1] + ns[j + 1..];
    assert Members(ns) == Members(Cut(ns, i, j)) + Members(ns[i..j + 1]);
  }

  method ExecutePush(list: DoubleLinkedList, x: Element, front: bool, ghost elSize: nat, ghost ns: seq<Node>)
    returns (ghost m: seq<Node>)
    requires Shaped(list, list.ally, elSize, ns) && OwnedBy(ns, list.ally.live, elSize) && |x| == elSize
    modifies list, list.ally, ns
    ensures Shaped(list, old(list.ally), elSize, m) && Settled(ns, old(list.ally.live), m, list.ally.live, elSize)
    ensures Payloads(m) == if front then [x] + Payloads(ns) else Payloads(ns) + [x]
    ensures forall n :: n in m ==> n in ns || fresh(n)
  {
    hide OwnedBy, Payloads, Settled, Distinct, ForwardChain;
    ghost var live := list.ally.live;
    ghost var elem: Node;
    if front { elem := list.AddFront(x); } else { elem := list.Add(x); }
    m := list.nodes;
    AddedNode(ns, live, m, list.ally.live, elSize, elem);
  }

  method ExecuteRemoveAt(list: DoubleLinkedList, k: nat, ghost elSize: nat, ghost ns: seq<Node>)
    returns (ghost m: seq<Node>)
    requires Shaped(list, list.ally, elSize, ns) && OwnedBy(ns, list.ally.live, elSize) && k < |ns|
    modifies list, list.ally, ns
    ensures Shaped(list, old(list.ally), elSize, m) && Settled(ns, old(list.ally.live), m, list.ally.live, elSize)
    ensures m == Cut(ns, k, k) && Payloads(m) == Cut(Payloads(ns), k, k)
  {
    hide OwnedBy, Payloads, Settled, Distinct, ForwardChain, NodeSet, Cut;
    ghost var live := list.ally.live;
    OnlyAt(ns, k);
    NodeSetOne(ns, k);
    var link := list.LinkAt(k);
    ghost var at := list.Remove(link);
    m := list.nodes;
    CutNodes(ns, live, k, k, list.ally.live, elSize);
  }

  method ExecuteRemoveRange(list: DoubleLinkedList, first: nat, last: nat, ghost elSize: nat, ghost ns: seq<Node>)
    returns (ghost m: seq<Node>)
    requires Shaped(list, list.ally, elSize, ns) && OwnedBy(ns, list.ally.live, elSize) && first <= last < |ns|
    modifies list, list.ally, ns
    ensures Shaped(list, old(list.ally), elSize, m) && Settled(ns, old(list.ally.live), m, list.ally.live, elSize)
    ensures m == Cut(ns, first, last) && Payloads(m) == Cut(Payloads(ns), first, last)
  {
    hide OwnedBy, Payloads, Settled, Distinct, ForwardChain, NodeSet, Cut;
    ghost var live := list.ally.live;
    var a := list.LinkAt(first);
    var b := list.LinkAt(last);
    list.RemoveMultiple(a, b, last - first + 1, first, last);
    m := list.nodes;
    CutNodes(ns, live, first, last, list.ally.live, elSize);
  }

  method ExecuteClear(list: DoubleLinkedList, ghost elSize: nat, ghost ns: seq<Node>)
    requires Shaped(list, list.ally, elSize, ns) && OwnedBy(ns, list.ally.live, elSize)
    modifies list, list.ally
    ensures Shaped(list, old(list.ally), elSize, []) && Settled(ns, old(list.ally.live), [], list.ally.live, elSize)
  {
    hide OwnedBy, Payloads, Settled, Distinct, ForwardChain, NodeSet;
    ghost var live := list.ally.live;
    list.Clear();
    ClearedNodes(ns, live, list.ally.live, elSize);
  }

  lemma ClearedNodes(ns: seq<Node>, live: set<Node>, live': set<Node>, elSize: nat)
    requires live' == live - NodeSet(ns)
    ensures Settled(ns, live, [], live', elSize)
  {
    NodeSetIs(ns);
  }

  /** The other lists and their nodes are none of what an operation on list `on` writes. */
  lemma OthersApart(lists: seq<DoubleLinkedList>, ally: Ally, ns: seq<seq<Node>>, live: set<Node>, elSize: nat, on: nat)
    requires Family(lists, ally, elSize, ns) && Separate(ns, live, elSize) && on < |ns|
    ensures forall j: nat :: j < |ns| && j != on ==> lists[j] != lists[on] && Shaped(lists[j], ally, elSize, ns[j])
    ensures forall j: nat, n :: j < |ns| && j != on && n in ns[j] ==> n !in ns[on]
    ensures forall j: nat :: j < |ns| && j != on ==> Disjoint(ns[j], ns[on])
    ensures Shaped(lists[on], ally, elSize, ns[on]) && OwnedBy(ns[on], live, elSize)
  {
    hide Shaped, OwnedBy;
    forall j: nat | j < |ns| && j != on ensures Disjoint(ns[j], ns[on]) {
      forall x, y | 0 <= x < |ns[j]| && 0 <= y < |ns[on]| ensures ns[j][x] != ns[on][y] {
        assert ns[j][x] in ns[j] && ns[on][y] in ns[on];
      }
    }
  }

  /** One operation on one list. */
  method ExecuteOn(list: DoubleLinkedList, op: Op, ghost elSize: nat, ghost ns: seq<Node>) returns (ghost m: seq<Node>)
    requires !op.SpliceFront? && !op.SpliceBack?
    requires Shaped(list, list.ally, elSize, ns) && OwnedBy(ns, list.ally.live, elSize)
    requires LegalOn(Payloads(ns), elSize, op)
    modifies list, list.ally, ns
    ensures Shaped(list, old(list.ally), elSize, m) && Settled(ns, old(list.ally.live), m, list.ally.live, elSize)
    ensures Payloads(m) == StepOn(Payloads(ns), elSize, op)
    ensures forall n :: n in m ==> n in ns || fresh(n)
  {
    hide Shaped, Settled, OwnedBy, Payloads;
    match op
    case PushFront(_, x) => m := ExecutePush(list, x, true, elSize, ns);
    case Push(_, x) => m := ExecutePush(list, x, false, elSize, ns);
    case RemoveAt(_, k) => m := ExecuteRemoveAt(list, k, elSize, ns);
    case RemoveRange(_, first, last) => m := ExecuteRemoveRange(list, first, last, elSize, ns);
    case Clear(_) =>
      ExecuteClear(list, elSize, ns);
      m := [];
  }

  lemma OwnedInside(ns: seq<Node>, live: set<Node>, elSize: nat)
    requires OwnedBy(ns, live, elSize)
    ensures Members(ns) <= live
  {
    OwnedEach(ns, live, elSize);
  }

  method SpliceLists(a: DoubleLinkedList, b: DoubleLinkedList, front: bool,
                     ghost ally: Ally, ghost elSize: nat, ghost ns: seq<Node>, ghost other: seq<Node>)
    requires a != b && Shaped(a, ally, elSize, ns) && Shaped(b, ally, elSize, other) && Disjoint(ns, other)
    requires OwnedBy(ns, ally.live, elSize) && OwnedBy(other, ally.live, elSize)
    requires front || ns != [] || other == []
    modifies a, b, ns, other
    ensures Shaped(a, ally, elSize, if front then other + ns else ns + other) && Shaped(b, ally, elSize, [])
  {
    hide OwnedBy, Distinct, ForwardChain, BackwardFrom;
    if front { a.AddAllFrontClearOld(b); } else { a.AddAllClearOld(b); }
  }

  lemma TextsMoved(ns: seq<seq<Node>>, dest: nat, src: nat)
    requires dest < |ns| && src < |ns| && dest != src
    ensures Texts(ns[dest := ns[src] + ns[dest]][src := []])
         == Texts(ns)[dest := Texts(ns)[src] + Texts(ns)[dest]][src := []]
    ensures Texts(ns[dest := ns[dest] + ns[src]][src := []])
         == Texts(ns)[dest := Texts(ns)[dest] + Texts(ns)[src]][src := []]
  {
    PayloadsConcat(ns[src], ns[dest]);
    PayloadsConcat(ns[dest], ns[src]);
  }

  method ExecuteSplice(lists: seq<DoubleLinkedList>, ally: Ally, dest: nat, src: nat, front: bool,
                       ghost elSize: nat, ghost ns: seq<seq<Node>>)
    returns (ghost next: seq<seq<Node>>)
    requires Family(lists, ally, elSize, ns) && Separate(ns, ally.live, elSize)
    requires dest < |ns| && src < |ns| && dest != src && (front || ns[dest] != [] || ns[src] == [])
    modifies lists[dest], lists[src], ns[dest], ns[src]
    ensures Family(lists, ally, elSize, next) && Separate(next, ally.live, elSize)
    ensures Texts(next) == Texts(ns)[dest := if front then Texts(ns)[src] + Texts(ns)[dest]
                                             else Texts(ns)[dest] + Texts(ns)[src]][src := []]
    ensures Union(next) == Union(ns)
  {
    hide Shaped, Separate, OwnedBy, Union, Payloads, Texts;
    OthersApart(lists, ally, ns, ally.live, elSize, dest);
    OthersApart(lists, ally, ns, ally.live, elSize, src);
    SpliceLists(lists[dest], lists[src], front, ally, elSize, ns[dest], ns[src]);
    ghost var m := if front then ns[src] + ns[dest] else ns[dest] + ns[src];
    next := ns[dest := m][src := []];
    Moved(ns, dest, src, m, ally.live, elSize);
    TextsMoved(ns, dest, src);
    forall j: nat | j < |lists| ensures Shaped(lists[j], ally, elSize, next[j]) {
      if j != dest && j != src { assert old(Shaped(lists[j], ally, elSize, ns[j])); }
    }
  }

  method ExecuteOne(lists: seq<DoubleLinkedList>, ally: Ally, op: Op, ghost elSize: nat, ghost ns: seq<seq<Node>>)
    returns (ghost next: seq<seq<Node>>)
    requires Family(lists, ally, elSize, ns) && Separate(ns, ally.live, elSize)
    requires !op.SpliceFront? && !op.SpliceBack? && op.on < |ns| && LegalOn(Payloads(ns[op.on]), elSize, op)
    modifies lists[op.on], ally, ns[op.on]
    ensures Family(lists, ally, elSize, next) && Separate(next, ally.live, elSize)
    ensures Texts(next) == Texts(ns)[op.on := StepOn(Payloads(ns[op.on]), elSize, op)]
    ensures fresh(Union(next) - Union(ns))
    ensures ally.live - Union(next) == old(ally.live) - Union(ns)
  {
    hide Shaped, Settled, Separate, OwnedBy, Payloads, Texts, Union, LegalOn, StepOn;
    ghost var live := ally.live;
    var on := op.on;
    OthersApart(lists, ally, ns, live, elSize, on);
    SameAlly(lists[on], ally, elSize, ns[on]);
    ghost var m := ExecuteOn(lists[on], op, elSize, ns[on]);
    SameAlly(lists[on], ally, elSize, m);
    next := ns[on := m];
    Replaced(ns, on, m, live, ally.live, elSize);
    TextsReplaced(ns, on, m);
    forall j: nat | j < |lists| ensures Shaped(lists[j], ally, elSize, next[j]) {
      if j != on { assert old(Shaped(lists[j], ally, elSize, ns[j])); }
    }
  }

  lemma SameAlly(list: DoubleLinkedList, ally: Ally, elSize: nat, ns: seq<Node>)
    requires Shaped(list, ally, elSize, ns)
    ensures list.ally == ally && list.elSize == elSize && list.nodes == ns
  {}

  // ---- Runs -------------------------------------------------------------------------------

  /** One operation keeps the family, does to its contents what the step says, and neither loses a
      node nor gives one back that some list still has. */
  method Execute(lists: seq<DoubleLinkedList>, ally: Ally, op: Op, ghost elSize: nat, ghost ns: seq<seq<Node>>)
    returns (ghost next: seq<seq<Node>>)
    requires Family(lists, ally, elSize, ns) && Separate(ns, ally.live, elSize)
    requires Legal(Texts(ns), elSize, op)
    modifies lists, ally, Union(ns)
    ensures Family(lists, ally, elSize, next) && Separate(next, ally.live, elSize)
    ensures Texts(next) == Step(Texts(ns), elSize, op) && Means(Texts(ns), elSize, op, Texts(next))
    ensures fresh(Union(next) - Union(ns))
    ensures ally.live - Union(next) == old(ally.live) - Union(ns)
  {
    hide OwnedBy, Payloads, Distinct, ForwardChain, BackwardFrom, NodeSet, Union, Means;
    StepIff(Texts(ns), elSize, op, Step(Texts(ns), elSize, op));
    match op
    case SpliceFront(dest, src) =>
      next := ExecuteSplice(lists, ally, dest, src, true, elSize, ns);
    case SpliceBack(dest, src) =>
      next := ExecuteSplice(lists, ally, dest, src, false, elSize, ns);
    case _ =>
      next := ExecuteOne(lists, ally, op, elSize, ns);
  }

  /** Every run over lists that share an allocator keeps all of them well formed and apart, and
      does to their contents what it does to plain sequences; nothing leaks and nothing that a list
      still has is given back. */
  method ExecuteAll(lists: seq<DoubleLinkedList>, ally: Ally, ops: seq<Op>, ghost elSize: nat,
                    ghost ns: seq<seq<Node>>)
    returns (ghost last: seq<seq<Node>>)
    requires Family(lists, ally, elSize, ns) && Separate(ns, ally.live, elSize)
    requires LegalRun(Texts(ns), elSize, ops)
    modifies lists, ally, Union(ns)
    ensures Family(lists, ally, elSize, last) && Separate(last, ally.live, elSize)
    ensures Texts(last) == Run(Texts(ns), elSize, ops)
    ensures fresh(Union(last) - Union(ns))
    ensures ally.live - Union(last) == old(ally.live) - Union(ns)
    decreases |ops|
  {
    hide Family, Separate, Texts, Step, Legal, Union;
    if ops == [] {
      last := ns;
    } else {
      ghost var next := Execute(lists, ally, ops[0], elSize, ns);
      last := ExecuteAll(lists, ally, ops[1..], elSize, next);
    }
  }

  /** What the invariant of a run says of each list. */
  lemma FamilyMeans(lists: seq<DoubleLinkedList>, ally: Ally, elSize: nat, ns: seq<seq<Node>>)
    requires Family(lists, ally, elSize, ns) && Separate(ns, ally.live, elSize)
    ensures forall i :: 0 <= i < |lists| ==> lists[i].Valid() && lists[i].Contents() == Texts(ns)[i]
    ensures forall i, j :: 0 <= i < j < |lists| ==> Disjoint(lists[i].nodes, lists[j].nodes)
  {
    hide OwnedBy;
    forall i | 0 <= i < |lists| ensures lists[i].Valid() && lists[i].Contents() == Texts(ns)[i] {
      assert Shaped(lists[i], ally, elSize, ns[i]) && OwnedBy(ns[i], ally.live, elSize);
    }
    forall i, j | 0 <= i < j < |lists| ensures Disjoint(lists[i].nodes, lists[j].nodes) {
      OthersApart(lists, ally, ns, ally.live, elSize, j);
      assert Shaped(lists[i], ally, elSize, ns[i]) && Shaped(lists[j], ally, elSize, ns[j]);
    }
  }

  /** A run from new lists. */
  method RunFromEmpty(count: nat, elSize: nat, ally: Ally, ops: seq<Op>) returns (lists: seq<DoubleLinkedList>)
    requires LegalRun(seq(count, _ => []), elSize, ops)
    modifies ally
    ensures |lists| == count
    ensures forall i :: 0 <= i < count ==>
      lists[i].Valid() && lists[i].Contents() == Run(seq(count, _ => []), elSize, ops)[i]
    ensures forall i, j :: 0 <= i < j < count ==> Disjoint(lists[i].nodes, lists[j].nodes)
  {
    lists := [];
    for i := 0 to count
      invariant |lists| == i && fresh(lists)
      invariant forall j :: 0 <= j < i ==> Shaped(lists[j], ally, elSize, [])
      invariant forall j, k :: 0 <= j < k < i ==> lists[j] != lists[k]
    {
      var list := new DoubleLinkedList(elSize, ally);
      lists := lists + [list];
    }
    ghost var none: seq<seq<Node>> := seq(count, _ => []);
    assert Texts(none) == seq(count, _ => []);
    assert Union(none) == {};
    ghost var last := ExecuteAll(lists, ally, ops, elSize, none);
    FamilyMeans(lists, ally, elSize, last);
  }
}
