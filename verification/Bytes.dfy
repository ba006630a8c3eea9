/** Byte buffers and the one primitive that writes them. */
module Bytes {
  type byte = bv8

  /** `d` with the bytes from position `at` on overwritten by `x`. */
  function Splice<T>(d: seq<T>, at: nat, x: seq<T>): (r: seq<T>)
    requires at + |x| <= |d|
    ensures |r| == |d|
    ensures forall i :: 0 <= i < |d| ==> r[i] == if at <= i < at + |x| then x[i - at] else d[i]
  {
    d[..at] + x + d[at + |x|..]
  }

  /** Copying a block and then the `k` elements that follow it is copying one longer block. */
  lemma SpliceAppend<T>(d: seq<T>, at: nat, s: seq<T>, from: nat, m: nat, k: nat,
                        pos: nat, x: seq<T>, first: seq<T>, both: seq<T>)
    requires at + m + k <= |d| && from + m + k <= |s|
    requires pos == at + m && x == s[from + m..from + m + k]
    requires first == Splice(d, at, s[from..from + m]) && both == Splice(first, pos, x)
    ensures both == Splice(d, at, s[from..from + m + k])
  {}

  /** A slice that lies before the written bytes, or inside them. */
  lemma SpliceSlice<T>(d: seq<T>, at: nat, x: seq<T>, from: nat, n: nat)
    requires at + |x| <= |d|
    requires from + n <= at || at <= from <= from + n <= at + |x|
    ensures from + n <= |d|
    ensures Splice(d, at, x)[from..from + n]
         == if from + n <= at then d[from..from + n] else x[from - at..from - at + n]
  {}

  /** A block copy, byte by byte in ascending order. Inside one buffer the target must not lie
      after the source: that is the left shift the callers need. */
  method CopyBytes(dest: array<byte>, d: nat, src: array<byte>, s: nat, n: nat)
    requires d + n <= dest.Length && s + n <= src.Length
    requires dest == src ==> d <= s
    modifies dest
    ensures dest[..] == Splice(old(dest[..]), d, old(src[s..s + n]))
  {
    for i := 0 to n
      invariant forall p :: 0 <= p < dest.Length ==>
        dest[p] == if d <= p < d + i then old(src[s + (p - d)]) else old(dest[p])
    {
      dest[d + i] := src[s + i];
    }
  }

  /** A block copy out of constant memory. */
  method WriteBytes(dest: array<byte>, d: nat, x: seq<byte>)
    requires d + |x| <= dest.Length
    modifies dest
    ensures dest[..] == Splice(old(dest[..]), d, x)
  {
    for i := 0 to |x|
      invariant forall p :: 0 <= p < dest.Length ==>
        dest[p] == if d <= p < d + i then x[p - d] else old(dest[p])
    {
      dest[d + i] := x[i];
    }
  }
}
