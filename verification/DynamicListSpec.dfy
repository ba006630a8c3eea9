/** What the operations of `dynamic_list/` mean: a sequence of elements and a capacity. */
module DynamicListSpec {
  import opened Bits
  import opened Bytes

  /** Lengths fit the `signed long` that the resizing helper takes. */
  const MAX_LEN: nat := 0x7FFF_FFFF_FFFF_FFFF

  /** An element slot: slots that were added without being written hold no particular bytes. */
  datatype Slot = Unspecified | Holds(bytes: seq<byte>)

  datatype State = State(elems: seq<Slot>, cap: nat)

  datatype Op =
    | Add(x: seq<byte>)
    | AddAll(xs: seq<seq<byte>>)
    | Set(pos: nat, x: seq<byte>)
    | RemoveAt(pos: nat)
    | RemoveRange(first: nat, last: nat)
    | Reserve(additional: nat)
    | ReserveExact(additional: nat)
    | Shrink

  function Filled(xs: seq<seq<byte>>): seq<Slot> { seq(|xs|, i requires 0 <= i < |xs| => Holds(xs[i])) }

  function Gap(n: nat): seq<Slot> { seq(n, _ => Unspecified) }

  // ---- Capacity management ----------------------------------------------------------------

  function RoundUp4(n: nat): nat { And(n + 3, NOT_3) }

  function Reserved(st: State, additional: nat): State {
    var wanted := |st.elems| + additional;
    if wanted <= st.cap then st else st.(cap := RoundUp4(wanted))
  }

  function ReservedExact(st: State, additional: nat): State {
    var wanted := |st.elems| + additional;
    if wanted <= st.cap then st else st.(cap := wanted)
  }

  function Shrunk(st: State): State { st.(cap := |st.elems|) }

  function Grown(st: State, change: nat): State {
    if change == 0 then st
    else State(st.elems + Gap(change), Reserved(st, change).cap)
  }

  /** Removal gives memory back only once 64 or more bytes are unused. */
  function Settled(st: State, stride: nat): State
    requires |st.elems| <= st.cap
  {
    if (st.cap - |st.elems|) * stride >= 64 then Shrunk(st) else st
  }

  // ---- One operation ----------------------------------------------------------------------

  /** What each operation demands of its caller. Setting the element right after the last one
      writes into spare capacity, which must exist. */
  predicate Legal(st: State, stride: nat, op: Op) {
    && |st.elems| <= st.cap
    && match op
       case Add(x) => |x| == stride && |st.elems| < MAX_LEN
       case AddAll(xs) => |st.elems| + |xs| <= MAX_LEN && forall x :: x in xs ==> |x| == stride
       case Set(pos, x) =>
         && |x| == stride && pos < MAX_LEN
         && (pos == |st.elems| ==> pos < st.cap)
       case RemoveAt(pos) => pos < |st.elems|
       case RemoveRange(first, last) => first <= last < |st.elems|
       case Reserve(k) => |st.elems| + k <= MAX_LEN
       case ReserveExact(k) => |st.elems| + k <= MAX_LEN
       case Shrink => true
  }

  function Step(st: State, stride: nat, op: Op): State
    requires Legal(st, stride, op)
  {
    var n := |st.elems|;
    match op
    case Add(x) => State(st.elems + [Holds(x)], Grown(st, 1).cap)
    case AddAll(xs) => State(st.elems + Filled(xs), Grown(st, |xs|).cap)
    case Set(pos, x) =>
      if pos > n then State(st.elems + Gap(pos - n) + [Holds(x)], Grown(st, pos - n + 1).cap)
      else if pos < n then st.(elems := st.elems[pos := Holds(x)])
      else st
    case RemoveAt(pos) =>
      Settled(st.(elems := st.elems[..pos] + st.elems[pos + 1..]), stride)
    case RemoveRange(first, last) =>
      Settled(st.(elems := st.elems[..first] + st.elems[last + 1..]), stride)
    case Reserve(k) => Reserved(st, k)
    case ReserveExact(k) => ReservedExact(st, k)
    case Shrink => Shrunk(st)
  }

  // ---- What an operation means, position by position --------------------------------------

  /** A capacity that is enough stays; else it becomes the least multiple of four that is. */
  predicate Room(before: nat, wanted: nat, after: nat) {
    if wanted <= before then after == before else wanted <= after < wanted + 4 && after % 4 == 0
  }

  /** With 64 or more bytes unused the capacity becomes the length; else it stays. */
  predicate GivenBack(before: nat, used: nat, stride: nat, after: nat)
    requires used <= before
  {
    after == if (before - used) * stride >= 64 then used else before
  }

  /** Slots `first` to `last` are gone, and the later ones have moved down over them. */
  predicate Removed(before: seq<Slot>, first: nat, last: nat, after: seq<Slot>)
    requires first <= last < |before|
  {
    && |after| == |before| - (last - first + 1)
    && (forall i :: 0 <= i < first ==> after[i] == before[i])
    && (forall i :: first <= i < |after| ==> after[i] == before[i + (last - first + 1)])
  }

  /** The elements `xs` follow the slots there were. */
  predicate Appended(before: seq<Slot>, xs: seq<seq<byte>>, after: seq<Slot>) {
    && |after| == |before| + |xs|
    && (forall i :: 0 <= i < |before| ==> after[i] == before[i])
    && (forall i :: |before| <= i < |after| ==> after[i] == Holds(xs[i - |before|]))
  }

  /** Slot `pos` holds `x`, the other slots stay, and slots skipped on the way hold nothing yet.
      The slot right after the last one is written without becoming part of the list. */
  predicate Updated(before: seq<Slot>, pos: nat, x: seq<byte>, after: seq<Slot>) {
    && |after| == (if pos > |before| then pos + 1 else |before|)
    && (pos != |before| ==> after[pos] == Holds(x))
    && (forall i :: 0 <= i < |before| && i != pos ==> after[i] == before[i])
    && (forall i :: |before| <= i < pos && i < |after| ==> after[i] == Unspecified)
  }

  predicate Means(st: State, stride: nat, op: Op, next: State)
    requires Legal(st, stride, op)
  {
    var n := |st.elems|;
    match op
    case Add(x) => Appended(st.elems, [x], next.elems) && Room(st.cap, n + 1, next.cap)
    case AddAll(xs) => Appended(st.elems, xs, next.elems) && Room(st.cap, n + |xs|, next.cap)
    case Set(pos, x) =>
      && Updated(st.elems, pos, x, next.elems)
      && Room(st.cap, if pos > n then pos + 1 else n, next.cap)
    case RemoveAt(pos) =>
      Removed(st.elems, pos, pos, next.elems) && GivenBack(st.cap, n - 1, stride, next.cap)
    case RemoveRange(first, last) =>
      && Removed(st.elems, first, last, next.elems)
      && GivenBack(st.cap, n - (last - first + 1), stride, next.cap)
    case Reserve(k) => next.elems == st.elems && Room(st.cap, n + k, next.cap)
    case ReserveExact(k) => next.elems == st.elems && next.cap == (if n + k <= st.cap then st.cap else n + k)
    case Shrink => next.elems == st.elems && next.cap == n
  }

  lemma ReservedRoom(st: State, k: nat)
    requires |st.elems| + k <= MAX_LEN
    ensures Room(st.cap, |st.elems| + k, Reserved(st, k).cap)
  {
    hide And;
    AndNot3(|st.elems| + k + 3);
  }

  lemma GrownRoom(st: State, k: nat)
    requires |st.elems| <= st.cap && |st.elems| + k <= MAX_LEN
    ensures Room(st.cap, |st.elems| + k, Grown(st, k).cap)
  {
    hide Reserved;
    ReservedRoom(st, k);
  }

  lemma StepMeans(st: State, stride: nat, op: Op)
    requires Legal(st, stride, op)
    ensures Means(st, stride, op, Step(st, stride, op))
  {
    hide Room, Grown, RoundUp4;
    var n := |st.elems|;
    match op {
      case Add(x) => GrownRoom(st, 1);
      case AddAll(xs) => GrownRoom(st, |xs|);
      case Set(pos, x) => if pos > n { GrownRoom(st, pos - n + 1); } else { RoomStays(st.cap, n); }
      case RemoveAt(pos) =>
      case RemoveRange(first, last) =>
      case Reserve(k) => ReservedRoom(st, k);
      case ReserveExact(k) =>
      case Shrink =>
    }
  }

  lemma RoomStays(cap: nat, wanted: nat)
    requires wanted <= cap
    ensures Room(cap, wanted, cap)
  {}

  lemma MeansOneState(st: State, stride: nat, op: Op, a: State, b: State)
    requires Legal(st, stride, op) && Means(st, stride, op, a) && Means(st, stride, op, b)
    ensures a == b
  {
    assert |a.elems| == |b.elems| && a.cap == b.cap;
    assert a.elems == b.elems;
  }

  /** A step has this meaning, and no other state has it. */
  lemma StepIff(st: State, stride: nat, op: Op, next: State)
    requires Legal(st, stride, op)
    ensures next == Step(st, stride, op) <==> Means(st, stride, op, next)
  {
    hide Means, Step;
    StepMeans(st, stride, op);
    if Means(st, stride, op, next) { MeansOneState(st, stride, op, next, Step(st, stride, op)); }
  }

  // ---- Runs -------------------------------------------------------------------------------

  predicate LegalRun(st: State, stride: nat, ops: seq<Op>)
    decreases |ops|
  {
    ops == [] || (Legal(st, stride, ops[0]) && LegalRun(Step(st, stride, ops[0]), stride, ops[1..]))
  }

  function Run(st: State, stride: nat, ops: seq<Op>): State
    requires LegalRun(st, stride, ops)
    decreases |ops|
  {
    if ops == [] then st else Run(Step(st, stride, ops[0]), stride, ops[1..])
  }

  /** A run of no operations changes nothing, and a run's last operation happens to what the run
      before it has left. */
  lemma {:induction false} RunPush(st: State, stride: nat, ops: seq<Op>, op: Op)
    requires LegalRun(st, stride, ops + [op])
    ensures LegalRun(st, stride, ops) && Legal(Run(st, stride, ops), stride, op)
    ensures Run(st, stride, []) == st
    ensures Run(st, stride, ops + [op]) == Step(Run(st, stride, ops), stride, op)
    decreases |ops|
  {
    hide Legal, Step;
    if ops == [] {
      assert ops + [op] == [op] && [op][1..] == [];
    } else {
      assert (ops + [op])[1..] == ops[1..] + [op];
      RunPush(Step(st, stride, ops[0]), stride, ops[1..], op);
    }
  }

  lemma RoundUp4Slack(n: nat)
    requires n <= MAX_LEN
    ensures n <= RoundUp4(n) <= n + 3
  {
    AndNot3(n + 3);
  }

  /** Bytes allocated but not used. */
  function Waste(st: State, stride: nat): int { (st.cap - |st.elems|) * stride }

  function Max(a: int, b: int): int { if a < b then b else a }

  /** The waste bound holds, and no slot lies past the capacity. */
  predicate Tight(st: State, stride: nat) {
    && |st.elems| <= st.cap
    && Waste(st, stride) <= Max(63, 3 * stride)
  }

  /** Growth, rounded up to a multiple of four elements, wastes less than four of them. */
  lemma GrownTight(st: State, stride: nat, change: nat, elems: seq<Slot>)
    requires Tight(st, stride) && |elems| == |st.elems| + change <= MAX_LEN
    ensures Tight(State(elems, Grown(st, change).cap), stride)
  {
    hide RoundUp4, Max;
    var cap := Grown(st, change).cap;
    RoundUp4Slack(|elems|);
    if cap == st.cap {
      MulMonotone(cap - |elems|, st.cap - |st.elems|, stride);
    } else {
      MulMonotone(cap - |elems|, 3, stride);
    }
    MaxBounds(63, 3 * stride);
  }

  lemma MaxBounds(a: int, b: int)
    ensures a <= Max(a, b) && b <= Max(a, b)
  {}

  /** Removal gives memory back as soon as 64 bytes are unused. */
  lemma SettledTight(st: State, stride: nat)
    requires |st.elems| <= st.cap
    ensures Tight(Settled(st, stride), stride)
  {
    hide Max;
    MaxBounds(63, 3 * stride);
    MulMonotone(0, 0, stride);
  }

  lemma StepTight(st: State, stride: nat, op: Op)
    requires Legal(st, stride, op) && Tight(st, stride) && !op.Reserve? && !op.ReserveExact?
    ensures Tight(Step(st, stride, op), stride)
  {
    hide Grown, Settled, Waste, Max;
    var n, next := |st.elems|, Step(st, stride, op);
    match op {
      case Add(x) => GrownTight(st, stride, 1, next.elems);
      case AddAll(xs) => GrownTight(st, stride, |xs|, next.elems);
      case Set(pos, x) =>
        if pos > n { GrownTight(st, stride, pos - n + 1, next.elems); } else { SameTight(st, stride, next); }
      case RemoveAt(pos) => SettledTight(st.(elems := st.elems[..pos] + st.elems[pos + 1..]), stride);
      case RemoveRange(first, last) =>
        SettledTight(st.(elems := st.elems[..first] + st.elems[last + 1..]), stride);
      case Shrink => ShrunkTight(st, stride);
    }
  }

  lemma SameTight(st: State, stride: nat, next: State)
    requires Tight(st, stride) && |next.elems| == |st.elems| && next.cap == st.cap
    ensures Tight(next, stride)
  {}

  lemma ShrunkTight(st: State, stride: nat)
    ensures Tight(Shrunk(st), stride)
  {
    MaxBounds(63, 3 * stride);
  }

  lemma MulMonotone(a: int, b: int, k: nat)
    requires a <= b
    ensures a * k <= b * k
  {}

  /** From an empty list without capacity, any run of additions, updates, removals and shrinks
      keeps the unused bytes within the larger of 63 and three elements. */
  lemma {:induction false} RunTight(st: State, stride: nat, ops: seq<Op>)
    requires Tight(st, stride) && LegalRun(st, stride, ops)
    requires forall op :: op in ops ==> !op.Reserve? && !op.ReserveExact?
    ensures Tight(Run(st, stride, ops), stride)
    decreases |ops|
  {
    if ops == [] {
    } else {
      StepTight(st, stride, ops[0]);
      RunTight(Step(st, stride, ops[0]), stride, ops[1..]);
    }
  }

  lemma WasteBounded(stride: nat, ops: seq<Op>)
    requires LegalRun(State([], 0), stride, ops)
    requires forall op :: op in ops ==> !op.Reserve? && !op.ReserveExact?
    ensures var st := Run(State([], 0), stride, ops);
      && |st.elems| <= st.cap
      && (st.cap - |st.elems|) * stride <= Max(63, 3 * stride)
  {
    RunTight(State([], 0), stride, ops);
  }
}
