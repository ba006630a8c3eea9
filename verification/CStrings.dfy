/** NUL-terminated buffers, and searching in strings. */
module CStrings {
  /** The number of elements before the first terminator. */
  function Length<T(==)>(buf: seq<T>, nul: T): (n: nat)
    requires nul in buf
    ensures n < |buf| && buf[n] == nul
    ensures forall i :: 0 <= i < n ==> buf[i] != nul
  {
    if buf[0] == nul then 0
    else
      assert buf == [buf[0]] + buf[1..];
      1 + Length(buf[1..], nul)
  }

  lemma TerminatorFirst<T>(s: seq<T>, nul: T, after: seq<T>)
    requires nul !in s
    ensures nul in s + [nul] + after
    ensures Length(s + [nul] + after, nul) == |s|
  {
    var buf := s + [nul] + after;
    assert buf[|s|] == nul;
    if s == [] {
    } else {
      assert buf[1..] == s[1..] + [nul] + after;
      TerminatorFirst(s[1..], nul, after);
    }
  }

  /** The first position of `c` in `s` from `from` on; the length when there is none. */
  function Find(s: string, from: nat, c: char): (k: nat)
    requires from <= |s|
    ensures from <= k <= |s|
    ensures k < |s| ==> s[k] == c
    ensures forall i :: from <= i < k ==> s[i] != c
    decreases |s| - from
  {
    if from == |s| || s[from] == c then from else Find(s, from + 1, c)
  }

  lemma FindIs(s: string, from: nat, c: char, k: nat)
    requires from <= k <= |s| && (k < |s| ==> s[k] == c) && forall i :: from <= i < k ==> s[i] != c
    ensures Find(s, from, c) == k
  {}
}
