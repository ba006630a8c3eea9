/** The dynamic list of `dynamic_list/`: a growing block of equally sized slots. */
module DynamicList {
  import opened Bits
  import opened Bytes
  import opened DynamicListSpec
  import opened SlotBuffer
  import opened StridedCopy

  /** A list that has no block yet has an empty one here: the null pointer of a list without
      capacity. */
  class DynamicList {
    const stride: nat
    var data: array<byte>
    var len: nat
    var cap: nat
    ghost var model: State

    ghost predicate Valid()
      reads this, data
    {
      && 0 < stride
      && len == |model.elems| && cap == model.cap
      && Represents(data[..], stride, model)
    }

    constructor (stride: nat, initCap: nat)
      requires 0 < stride
      ensures Valid() && fresh(data)
      ensures this.stride == stride && model == State([], initCap)
    {
      this.stride := stride;
      data := new byte[initCap * stride];
      len := 0;
      cap := initCap;
      model := State([], initCap);
    }

    /** The allocator's reallocation, assumed to succeed: a new block that keeps the bytes both
        blocks have. The caller must name the old size exactly. */
    method Reallocate(oldSize: nat, newSize: nat)
      requires oldSize == data.Length
      modifies this`data
      ensures fresh(data) && data.Length == newSize
      ensures forall p :: 0 <= p < oldSize && p < newSize ==> data[p] == old(data[p])
    {
      var block := new byte[newSize];
      for p := 0 to if oldSize < newSize then oldSize else newSize
        invariant data == old(data)
        invariant forall q :: 0 <= q < p ==> block[q] == data[q]
      {
        block[p] := data[p];
      }
      data := block;
    }

    method Reserve(additional: nat)
      requires Valid() && len + additional <= MAX_LEN
      modifies this`data, this`cap, this`model
      ensures Valid() && (data == old(data) || fresh(data))
      ensures model == Reserved(old(model), additional)
      ensures model.elems == old(model.elems) && Room(old(cap), len + additional, cap)
    {
      ReservedRoom(model, additional);
      var wanted := len + additional;
      if wanted <= cap {
        return;
      }
      RoundUp4Slack(wanted);
      wanted := And(wanted + 3, NOT_3);
      ghost var before := data[..];
      Reallocate(cap * stride, wanted * stride);
      cap := wanted;
      SlotBuffer.Reallocated(before, data[..], stride, model, wanted);
      model := Reserved(model, additional);
    }

    method ReserveExact(additional: nat)
      requires Valid() && len + additional <= MAX_LEN
      modifies this`data, this`cap, this`model
      ensures Valid() && (data == old(data) || fresh(data))
      ensures model == Step(old(model), stride, Op.ReserveExact(additional))
      ensures model.elems == old(model.elems)
      ensures cap == if len + additional <= old(cap) then old(cap) else len + additional
    {
      var wanted := len + additional;
      if wanted <= cap {
        return;
      }
      ghost var before := data[..];
      Reallocate(cap * stride, wanted * stride);
      cap := wanted;
      SlotBuffer.Reallocated(before, data[..], stride, model, wanted);
      model := model.(cap := wanted);
    }

    method Shrink()
      requires Valid()
      modifies this`data, this`cap, this`model
      ensures Valid() && (data == old(data) || fresh(data))
      ensures model == Step(old(model), stride, Op.Shrink)
      ensures model.elems == old(model.elems) && cap == len
    {
      if cap == len {
        return;
      }
      ghost var before := data[..];
      Reallocate(cap * stride, len * stride);
      cap := len;
      SlotBuffer.Reallocated(before, data[..], stride, model, len);
      model := model.(cap := len);
    }

    /** Growth adds slots that hold nothing yet; shrinking cuts slots off and gives their
        memory back. */
    method ResizeRel(change: int)
      requires Valid() && 0 <= len + change && change <= MAX_LEN - len
      modifies this
      ensures Valid() && (data == old(data) || fresh(data))
      ensures model ==
        if change >= 0 then Grown(old(model), change)
        else State(old(model).elems[..old(len) + change], old(len) + change)
    {
      if change == 0 {
        return;
      }
      if change > 0 {
        Reserve(change);
        len := len + change;
        RoundUp4Slack(len);
        Resized(data[..], stride, model, model.elems + Gap(change));
        model := model.(elems := model.elems + Gap(change));
      } else {
        len := len + change;
        Resized(data[..], stride, model, model.elems[..len]);
        model := model.(elems := model.elems[..len]);
        Shrink();
      }
    }

    method PostRemove()
      requires Valid()
      modifies this`data, this`cap, this`model
      ensures Valid() && (data == old(data) || fresh(data))
      ensures model == Settled(old(model), stride)
    {
      if (cap - len) * stride >= 64 {
        Shrink();
      }
    }

    /** Appends one slot and returns where it starts. */
    method Addp() returns (dest: nat)
      requires Valid() && len < MAX_LEN
      modifies this
      ensures Valid() && (data == old(data) || fresh(data))
      ensures model == Grown(old(model), 1) && dest == Start(0, stride, old(len))
    {
      ResizeRel(1);
      dest := stride * (len - 1);
    }

    /** Copies `x` over the slot that starts at `dest`. */
    method Store(dest: nat, ghost pos: nat, x: seq<byte>)
      requires Valid() && pos < cap && dest == Start(0, stride, pos) && |x| == stride
      modifies data, this`model
      ensures Valid()
      ensures dest + stride <= data.Length && data[dest..dest + stride] == x
      ensures model ==
        if pos < len then old(model).(elems := old(model).elems[pos := Holds(x)]) else old(model)
    {
      ghost var before := data[..];
      WriteSlot(before, stride, model, pos, x);
      WriteBytes(data, dest, x);
      if pos < len {
        model := model.(elems := model.elems[pos := Holds(x)]);
      }
    }

    method Add(x: seq<byte>)
      requires Valid() && Legal(model, stride, Op.Add(x))
      modifies this, data
      ensures Valid() && (data == old(data) || fresh(data))
      ensures model == Step(old(model), stride, Op.Add(x))
      ensures model.elems == old(model.elems) + [Holds(x)] && Room(old(cap), old(len) + 1, cap)
      ensures stride * old(len) + stride <= data.Length
      ensures data[stride * old(len)..stride * old(len) + stride] == x
    {
      GrownRoom(model, 1);
      var dest := Addp();
      Store(dest, len - 1, x);
    }

    method Setp(pos: nat) returns (dest: nat)
      requires Valid() && pos < MAX_LEN
      modifies this
      ensures Valid() && (data == old(data) || fresh(data))
      ensures model == if pos > old(len) then Grown(old(model), pos - old(len) + 1) else old(model)
      ensures dest == Start(0, stride, pos)
    {
      if pos > len {
        ResizeRel(pos - len + 1);
      }
      dest := stride * pos;
    }

    method Set(pos: nat, x: seq<byte>)
      requires Valid() && Legal(model, stride, Op.Set(pos, x))
      modifies this, data
      ensures Valid() && (data == old(data) || fresh(data))
      ensures model == Step(old(model), stride, Op.Set(pos, x))
      ensures pos < old(len) ==> model.elems == old(model.elems)[pos := Holds(x)] && cap == old(cap)
      ensures pos == old(len) ==> model.elems == old(model.elems) && cap == old(cap)
      ensures pos > old(len) ==>
        && |model.elems| == pos + 1 && model.elems[..old(len)] == old(model.elems)
        && (forall i :: old(len) <= i < pos ==> model.elems[i] == Unspecified)
        && model.elems[pos] == Holds(x) && Room(old(cap), pos + 1, cap)
      ensures stride * pos + stride <= data.Length && data[stride * pos..stride * pos + stride] == x
    {
      if pos > len { GrownRoom(model, pos - len + 1); }
      var dest := Setp(pos);
      Store(dest, pos, x);
    }

    method AddAllp(n: nat) returns (dest: nat)
      requires Valid() && len + n <= MAX_LEN
      modifies this
      ensures Valid() && (data == old(data) || fresh(data))
      ensures model == Grown(old(model), n) && dest == Start(0, stride, old(len))
    {
      ResizeRel(n);
      assert len - n == old(len);
      dest := stride * (len - n);
    }

    /** Copies `n` elements over the last `n` slots. The slots of a list touch each other, so the
        strided copy never takes its masked loop here. */
    method StoreAll(dest: nat, ghost pos: nat, src: array<byte>, from: nat, n: nat, srcStride: nat)
      requires Valid() && pos + n == len && dest == Start(0, stride, pos) && src != data
      requires Fits(src.Length, from, srcStride, n, stride)
      modifies data, this`model
      ensures Valid()
      ensures model ==
        old(model).(elems := Overlay(old(model).elems, pos, old(Elements(src[..], from, srcStride, n, stride))))
    {
      hide Represents, Elements, CopyElements, Start;
      assert !TakesMask(stride, srcStride, stride);
      ScatteredSlots(data[..], stride, model, pos, src[..], from, srcStride, n);
      StridedMemcpy(data, dest, stride, src, from, srcStride, n, stride);
      model := model.(elems := Overlay(model.elems, pos, Elements(src[..], from, srcStride, n, stride)));
    }

    /** Appends `n` elements that start `srcStride` bytes apart in `src`. */
    method AddAll(src: array<byte>, from: nat, n: nat, srcStride: nat)
      requires Valid() && len + n <= MAX_LEN && src != data
      requires Fits(src.Length, from, srcStride, n, stride)
      modifies this, data
      ensures Valid() && (data == old(data) || fresh(data))
      ensures model == Step(old(model), stride, Op.AddAll(old(Elements(src[..], from, srcStride, n, stride))))
      ensures Appended(old(model.elems), old(Elements(src[..], from, srcStride, n, stride)), model.elems)
      ensures Room(old(cap), old(len) + n, cap)
    {
      hide Appended, Room, Elements, Start, Fits, Overlay, Gap, Filled, Grown;
      GrownRoom(model, n);
      hide Represents;
      AddedAtEnd(model, n, Elements(src[..], from, srcStride, n, stride));
      var dest := AddAllp(n);
      StoreAll(dest, len - n, src, from, n, srcStride);
    }

    /** Moves the bytes of the elements after `last` down to where element `first` starts. */
    method CloseGap(first: nat, last: nat)
      requires Valid() && first <= last < len
      modifies data
      ensures Start(0, stride, len) <= old(data.Length) == data.Length
      ensures data[..] == ShiftDown(old(data[..]), stride, len, first, last)
    {
      ShiftBounds(stride, len, first, last);
      ShiftBounds(stride, cap, len - 1, len - 1);
      if last != len - 1 {
        var amount := len - (last + 1);
        StartChain(0, stride, amount);
        CopyBytes(data, stride * first, data, stride * (last + 1), amount * stride);
      }
    }

    method RemoveRange(first: nat, last: nat)
      requires Valid() && Legal(model, stride, Op.RemoveRange(first, last))
      modifies this, data
      ensures Valid() && (data == old(data) || fresh(data))
      ensures model == Step(old(model), stride, Op.RemoveRange(first, last))
      ensures model.elems == old(model.elems)[..first] + old(model.elems)[last + 1..]
      ensures cap == if (old(cap) - len) * stride >= 64 then len else old(cap)
    {
      hide Represents, ShiftDown;
      ShiftedDown(data[..], stride, model, first, last);
      CloseGap(first, last);
      len := len - (last - first + 1);
      model := model.(elems := model.elems[..first] + model.elems[last + 1..]);
      PostRemove();
    }

    method RemoveAt(pos: nat)
      requires Valid() && Legal(model, stride, Op.RemoveAt(pos))
      modifies this, data
      ensures Valid() && (data == old(data) || fresh(data))
      ensures model == Step(old(model), stride, Op.RemoveAt(pos))
      ensures model.elems == old(model.elems)[..pos] + old(model.elems)[pos + 1..]
      ensures cap == if (old(cap) - len) * stride >= 64 then len else old(cap)
    {
      hide Represents, ShiftDown;
      ShiftedDown(data[..], stride, model, pos, pos);
      CloseGap(pos, pos);
      len := len - 1;
      model := model.(elems := model.elems[..pos] + model.elems[pos + 1..]);
      PostRemove();
    }

    // ---- Runs -----------------------------------------------------------------------------

    method Execute(op: Op)
      requires Valid() && Legal(model, stride, op)
      modifies this, data
      ensures Valid() && (data == old(data) || fresh(data))
      ensures model == Step(old(model), stride, op) && Means(old(model), stride, op, model)
    {
      hide Represents, Means;
      StepMeans(model, stride, op);
      match op
      case Add(x) => Add(x);
      case AddAll(xs) =>
        var src := Gather(xs, stride);
        AddAll(src, 0, |xs|, stride);
      case Set(pos, x) => Set(pos, x);
      case RemoveAt(pos) => RemoveAt(pos);
      case RemoveRange(first, last) => RemoveRange(first, last);
      case Reserve(additional) => Reserve(additional);
      case ReserveExact(additional) => ReserveExact(additional);
      case Shrink => Shrink();
    }

    /** Every run of operations does to the bytes what it does to the sequence of elements. */
    method ExecuteAll(ops: seq<Op>)
      requires Valid() && LegalRun(model, stride, ops)
      modifies this, data
      ensures Valid() && (data == old(data) || fresh(data))
      ensures model == Run(old(model), stride, ops)
    {
      hide Valid, Legal, Step;
      if ops != [] {
        Execute(ops[0]);
        ExecuteAll(ops[1..]);
      }
    }
  }

  /** An array that holds the elements one after the other. */
  method Gather(xs: seq<seq<byte>>, stride: nat) returns (src: array<byte>)
    requires forall x :: x in xs ==> |x| == stride
    ensures fresh(src) && Fits(src.Length, 0, stride, |xs|, stride)
    ensures Elements(src[..], 0, stride, |xs|, stride) == xs
  {
    hide Start, Elements;
    var pos := 0;
    StartIsProduct(0, stride, |xs|);
    StartZero(0, stride);
    src := new byte[|xs| * stride];
    NoneYet(src[..], stride);
    for i := 0 to |xs|
      invariant pos == Start(0, stride, i) && src.Length == Start(0, stride, |xs|)
      invariant Fits(src.Length, 0, stride, i, stride) && Elements(src[..], 0, stride, i, stride) == xs[..i]
    {
      FitsMore(src.Length, stride, |xs|, i);
      ElementsPush(src[..], stride, i, pos, xs[i]);
      WriteBytes(src, pos, xs[i]);
      StartChain(0, stride, i);
      pos := pos + stride;
    }
  }

  lemma NoneYet(d: seq<byte>, stride: nat)
    ensures Fits(|d|, 0, stride, 0, stride) && Elements(d, 0, stride, 0, stride) == []
  {}

  lemma FitsMore(length: nat, stride: nat, n: nat, i: nat)
    requires length == Start(0, stride, n) && i < n
    ensures Fits(length, 0, stride, i + 1, stride) && Start(0, stride, i) + stride <= length
  {
    StartsApart(0, stride, i, n);
  }

  lemma ElementsPush(d: seq<byte>, stride: nat, n: nat, pos: nat, x: seq<byte>)
    requires Fits(|d|, 0, stride, n + 1, stride) && Fits(|d|, 0, stride, n, stride) && |x| == stride
    requires pos == Start(0, stride, n) && pos + |x| <= |d|
    ensures Elements(Splice(d, pos, x), 0, stride, n + 1, stride) == Elements(d, 0, stride, n, stride) + [x]
  {
    hide Start, Elements, Splice;
    var d' := Splice(d, pos, x);
    forall j | 0 <= j < n
      ensures Elements(d', 0, stride, n + 1, stride)[j] == Elements(d, 0, stride, n, stride)[j]
    {
      ElementsAt(d', 0, stride, n + 1, stride, j);
      ElementsAt(d, 0, stride, n, stride, j);
      StartsApart(0, stride, j, n);
      SpliceSlice(d, pos, x, Start(0, stride, j), stride);
    }
    ElementsAt(d', 0, stride, n + 1, stride, n);
    SpliceSlice(d, pos, x, pos, stride);
    assert x[0..stride] == x && Elements(d', 0, stride, n + 1, stride)[n] == x;
    assert |Elements(d', 0, stride, n + 1, stride)| == n + 1;
  }

  /** From an empty list without capacity, no run of additions, updates, removals and shrinks
      leaves more than the larger of 63 bytes and three elements unused in the block. */
  method RunFromEmpty(stride: nat, ops: seq<Op>) returns (list: DynamicList)
    requires 0 < stride && LegalRun(State([], 0), stride, ops)
    requires forall op :: op in ops ==> !op.Reserve? && !op.ReserveExact?
    ensures list.Valid() && list.model == Run(State([], 0), stride, ops)
    ensures list.data.Length - list.len * stride <= Max(63, 3 * stride)
  {
    list := new DynamicList(stride, 0);
    list.ExecuteAll(ops);
    WasteBounded(stride, ops);
    BlockSize(list.data[..], stride, list.model);
  }

  lemma BlockSize(d: seq<byte>, stride: nat, st: State)
    requires Represents(d, stride, st)
    ensures |d| - |st.elems| * stride == (st.cap - |st.elems|) * stride
  {
    StartIsProduct(0, stride, st.cap);
  }
}
