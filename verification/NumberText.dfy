/** Integers as text: `ll_to_ascii`, `rev` and `ascii_to_ll` of `minifmt.c`. */
module NumberText {
  const LL_MAX: int := 0x7FFF_FFFF_FFFF_FFFF
  const LL_MIN: int := -0x8000_0000_0000_0000

  predicate InLongLong(v: int) { LL_MIN <= v <= LL_MAX }

  function Abs(v: int): nat { if v < 0 then -v else v }

  predicate IsRadix(radix: nat) { 2 <= radix <= 36 }

  // ---- Digits -----------------------------------------------------------------------------

  type Digit = d: nat | d < 36

  /** The digits of `v`, the most significant first; zero has none. */
  function Digits(v: nat, radix: nat): (ds: seq<Digit>)
    requires IsRadix(radix)
    ensures v > 0 ==> ds != []
    decreases v
  {
    if v == 0 then [] else Digits(v / radix, radix) + [v % radix]
  }

  /** The positional value of a sequence of digits. */
  function Horner(ds: seq<int>, radix: int): int {
    if ds == [] then 0 else Horner(ds[..|ds| - 1], radix) * radix + ds[|ds| - 1]
  }

  function Pow(b: nat, e: nat): nat {
    if e == 0 then 1 else b * Pow(b, e - 1)
  }

  /** The last digit of a number, and the number that its other digits write. */
  lemma LastDigit(v: nat, radix: nat) returns (q: nat, d: Digit)
    requires v > 0 && IsRadix(radix)
    ensures v == q * radix + d && d < radix && q < v && 2 * q <= v
    ensures q == 0 <==> v < radix
    ensures Digits(v, radix) == Digits(q, radix) + [d]
  {
    hide Digits;
    Division(v, radix);
    q, d := v / radix, v % radix;
    DigitsUnfold(v, radix);
  }

  lemma Division(v: nat, radix: nat)
    requires v > 0 && radix >= 2
    ensures var q, d := v / radix, v % radix;
      && v == q * radix + d && 0 <= d < radix && q < v && 2 * q <= v && (q == 0 <==> v < radix)
  {
    var q := v / radix;
    MulLe(2, radix, q);
  }

  lemma DigitsUnfold(v: nat, radix: nat)
    requires v > 0 && IsRadix(radix)
    ensures Digits(v, radix) == Digits(v / radix, radix) + [v % radix]
  {}

  lemma {:induction false} DigitsValue(v: nat, radix: nat)
    requires IsRadix(radix)
    ensures Horner(Digits(v, radix), radix) == v
    decreases v
  {
    hide Digits;
    if v > 0 {
      var q, d := LastDigit(v, radix);
      DigitsValue(q, radix);
      EvaluatePush(Digits(q, radix), d, radix);
    } else {
      NoDigits(radix);
    }
  }

  lemma NoDigits(radix: nat)
    requires IsRadix(radix)
    ensures Digits(0, radix) == []
  {}

  lemma {:induction false} DigitsShape(v: nat, radix: nat)
    requires v > 0 && IsRadix(radix)
    ensures Digits(v, radix)[0] != 0
    ensures forall d :: d in Digits(v, radix) ==> d < radix
    decreases v
  {
    hide Digits;
    var q, d := LastDigit(v, radix);
    if q > 0 {
      DigitsShape(q, radix);
    } else {
      NoDigits(radix);
    }
  }

  lemma Magnitude(lo: nat, q: nat, hi: nat, d: nat, radix: nat)
    requires lo <= q < hi && d < radix
    ensures radix * lo <= q * radix + d < radix * hi
  {
    MulLe(lo, q, radix);
    MulLe(q + 1, hi, radix);
  }

  lemma MulLe(a: int, b: int, k: int)
    requires a <= b && 0 <= k
    ensures a * k <= b * k
  {}

  lemma {:induction false} DigitsMagnitude(v: nat, radix: nat)
    requires v > 0 && IsRadix(radix)
    ensures Pow(radix, |Digits(v, radix)| - 1) <= v < Pow(radix, |Digits(v, radix)|)
    decreases v
  {
    hide Digits;
    var q, d := LastDigit(v, radix);
    var n := |Digits(q, radix)|;
    assert Pow(radix, n + 1) == radix * Pow(radix, n);
    if q > 0 {
      DigitsMagnitude(q, radix);
      Magnitude(Pow(radix, n - 1), q, Pow(radix, n), d, radix);
    } else {
      NoDigits(radix);
    }
  }

  lemma {:induction false} PowSum(b: nat, i: nat, j: nat)
    ensures Pow(b, i + j) == Pow(b, i) * Pow(b, j)
  {
    hide Pow;
    if i == 0 {
      PowStep(b, 0);
    } else {
      PowSum(b, i - 1, j);
      PowStep(b, i - 1);
      PowStep(b, i - 1 + j);
      MulAssociative(b, Pow(b, i - 1), Pow(b, j));
      assert i - 1 + j + 1 == i + j;
    }
  }

  lemma PowStep(b: nat, e: nat)
    ensures Pow(b, 0) == 1 && Pow(b, e + 1) == b * Pow(b, e)
  {}

  lemma MulAssociative(a: nat, x: nat, y: nat)
    ensures a * (x * y) == (a * x) * y
  {}

  /** A number of `k` bits has at most `k` digits. */
  lemma {:induction false} DigitCount(v: nat, radix: nat, k: nat)
    requires IsRadix(radix) && v < Pow(2, k)
    ensures |Digits(v, radix)| <= k
  {
    hide Digits;
    if v > 0 {
      var q, d := LastDigit(v, radix);
      DigitCount(q, radix, k - 1);
    } else {
      NoDigits(radix);
    }
  }

  lemma LongLongBits()
    ensures Pow(2, 63) == LL_MAX + 1
  {
    var k := 8;
    assert Pow(2, k) == 0x100;
    PowSum(2, k, k);
    PowSum(2, 2 * k, 2 * k);
    PowSum(2, 4 * k, 2 * k);
    PowSum(2, 6 * k, k);
    PowSum(2, 7 * k, 7);
    assert 7 * k + 7 == 63;
  }

  lemma DigitLimit(v: nat, radix: nat)
    requires IsRadix(radix) && v <= LL_MAX
    ensures |Digits(v, radix)| <= 63
  {
    LongLongBits();
    DigitCount(v, radix, 63);
  }

  // ---- Text -------------------------------------------------------------------------------

  function DigitChar(d: Digit): char {
    if d < 10 then '0' + d as char else 'a' + (d - 10) as char
  }

  /** What the decoder takes a character for: letters count from zero. */
  function CharValue(c: char): int {
    if '0' <= c <= '9' then c as int - '0' as int else c as int - 'a' as int
  }

  function Chars(ds: seq<Digit>): (s: string)
    ensures |s| == |ds| && forall i :: 0 <= i < |ds| ==> s[i] == DigitChar(ds[i])
  {
    seq(|ds|, i requires 0 <= i < |ds| => DigitChar(ds[i]))
  }

  function CharValues(s: string): (ds: seq<int>)
    ensures |ds| == |s| && forall i :: 0 <= i < |s| ==> ds[i] == CharValue(s[i])
  {
    seq(|s|, i requires 0 <= i < |s| => CharValue(s[i]))
  }

  /** The text of a number: a sign if it is negative, then its digits; zero is one digit. */
  function Encode(v: int, radix: nat): string
    requires IsRadix(radix)
  {
    if v == 0 then "0"
    else (if v < 0 then "-" else "") + Chars(Digits(Abs(v), radix))
  }

  /** The value of a text: an optional sign, then digits; nothing counts as zero. */
  function Decode(s: string, radix: int): int {
    if s == "" then 0
    else if s[0] == '-' then -Horner(CharValues(s[1..]), radix)
    else if s[0] == '+' then Horner(CharValues(s[1..]), radix)
    else Horner(CharValues(s), radix)
  }

  /** The digits without their sign. */
  function Unsigned(s: string): string {
    if s != "" && (s[0] == '-' || s[0] == '+') then s[1..] else s
  }

  /** No intermediate result of evaluating the digits leaves the range of a long long. */
  predicate StaysInRange(ds: seq<int>, radix: int) {
    ds == []
    || (var up := ds[..|ds| - 1];
        StaysInRange(up, radix) && InLongLong(Horner(up, radix) * radix) && InLongLong(Horner(ds, radix)))
  }

  // ---- The conversion loops ---------------------------------------------------------------

  /** Reverses the characters between two positions, whichever of them comes first. */
  method Rev(dest: array<char>, from: int, to: int)
    requires 0 <= from < dest.Length && 0 <= to < dest.Length
    modifies dest
    ensures var lo, hi := if from > to then to else from, if from > to then from else to;
      forall p :: 0 <= p < dest.Length ==>
        dest[p] == if lo <= p <= hi then old(dest[lo + hi - p]) else old(dest[p])
  {
    var first, last := from, to;
    if first > last {
      first, last := last, first;
    }
    ghost var lo, hi := first, last;
    while last >= first
      invariant lo <= first <= last + 2 && last <= hi && first + last == lo + hi
      invariant forall p :: 0 <= p < dest.Length ==>
        dest[p] == if lo <= p < first || last < p <= hi then old(dest[lo + hi - p]) else old(dest[p])
    {
      var s := dest[first];
      dest[first] := dest[last];
      first := first + 1;
      dest[last] := s;
      last := last - 1;
    }
  }

  /** Writes the text of a number and its terminator, and returns where the terminator is. 65
      bytes are always enough. */
  method LlToAscii(value: int, dest: array<char>, at: nat, radix: nat) returns (end: nat)
    requires InLongLong(value) && value != LL_MIN && IsRadix(radix)
    requires at + 65 <= dest.Length
    modifies dest
    ensures at < end <= at + 64
    ensures dest[at..end] == Encode(value, radix) && dest[end] == '\0'
    ensures forall p :: 0 <= p < dest.Length && !(at <= p <= end) ==> dest[p] == old(dest[p])
  {
    hide Digits;
    var v, pos := value, at;
    if v < 0 {
      dest[pos] := '-';
      pos := pos + 1;
      v := -v;
    } else if v == 0 {
      dest[pos] := '0';
      pos := pos + 1;
      dest[pos] := '\0';
      return pos;
    }
    var start := pos;
    DigitLimit(v, radix);
    pos := WriteDigits(v, dest, start, radix);
    dest[pos] := '\0';
    end := pos;
    assert value < 0 ==> dest[at..end] == [dest[at]] + dest[start..end];
  }

  method WriteDigits(value: nat, dest: array<char>, start: nat, radix: nat) returns (pos: nat)
    requires value > 0 && IsRadix(radix)
    requires start + |Digits(value, radix)| <= dest.Length
    modifies dest
    ensures pos == start + |Digits(value, radix)|
    ensures dest[start..pos] == Chars(Digits(value, radix))
    ensures forall p :: 0 <= p < dest.Length && !(start <= p < pos) ==> dest[p] == old(dest[p])
  {
    hide Digits;
    pos := EmitDigits(value, dest, start, radix);
    label emitted:
    ghost var ds := Digits(value, radix);
    Rev(dest, start, pos - 1);
    forall i | 0 <= i < |ds| ensures dest[start..pos][i] == Chars(ds)[i] {
      assert dest[start + i] == old@emitted(dest[start + pos - 1 - (start + i)]);
    }
    assert dest[start..pos] == Chars(ds);
  }

  /** The digit loop: the least significant digit first. */
  method EmitDigits(value: nat, dest: array<char>, start: nat, radix: nat) returns (pos: nat)
    requires value > 0 && IsRadix(radix)
    requires start + |Digits(value, radix)| <= dest.Length
    modifies dest
    ensures pos == start + |Digits(value, radix)|
    ensures forall p :: start <= p < pos ==> dest[p] == DigitChar(Digits(value, radix)[pos - 1 - p])
    ensures forall p :: 0 <= p < dest.Length && !(start <= p < pos) ==> dest[p] == old(dest[p])
  {
    hide Digits;
    ghost var all := Digits(value, radix);
    var v: nat := value;
    pos := start;
    while v != 0
      invariant start <= pos && pos - start + |Digits(v, radix)| == |all|
      invariant Digits(v, radix) == all[..|Digits(v, radix)|]
      invariant forall p :: start <= p < pos ==> dest[p] == DigitChar(all[|all| - 1 - (p - start)])
      invariant forall p :: 0 <= p < dest.Length && !(start <= p < pos) ==> dest[p] == old(dest[p])
      decreases v
    {
      DigitsUnfold(v, radix);
      Division(v, radix);
      var i: Digit := v % radix;
      v := v / radix;
      if i < 10 {
        dest[pos] := '0' + i as char;
      } else {
        dest[pos] := 'a' + (i - 10) as char;
      }
      pos := pos + 1;
    }
    NoDigits(radix);
  }

  /** Evaluates an optional sign and digits. The second result says whether every intermediate
      value stayed in range, which is what the original needs to be meaningful. */
  method AsciiToLl(ascii: string, radix: int) returns (value: int, inRange: bool)
    ensures value == Decode(ascii, radix)
    ensures inRange == StaysInRange(CharValues(Unsigned(ascii)), radix)
  {
    if |ascii| == 0 {
      return 0, true;
    }
    var neg, pos := false, 0;
    if ascii[0] == '-' {
      pos := 1;
      neg := true;
    } else if ascii[0] == '+' {
      pos := 1;
    }
    if pos == |ascii| {
      return 0, true;
    }
    value, inRange := EvaluateDigits(ascii[pos..], radix);
    if neg {
      value := -value;
    }
  }

  /** The evaluation loop, over at least one digit. */
  method EvaluateDigits(digits: string, radix: int) returns (value: int, inRange: bool)
    requires digits != ""
    ensures value == Horner(CharValues(digits), radix)
    ensures inRange == StaysInRange(CharValues(digits), radix)
  {
    hide Horner, StaysInRange;
    ghost var ds := CharValues(digits);
    EvaluateNothing(radix);
    value, inRange := 0, true;
    var i := 0;
    while true
      invariant 0 <= i < |digits|
      invariant value == Horner(ds[..i], radix)
      invariant inRange == StaysInRange(ds[..i], radix)
      decreases |digits| - i
    {
      EvaluatePush(ds[..i], ds[i], radix);
      assert ds[..i + 1] == ds[..i] + [ds[i]];
      value := value * radix;
      inRange := inRange && InLongLong(value);
      if '0' <= digits[i] <= '9' {
        value := value + (digits[i] as int - '0' as int);
      } else {
        value := value + (digits[i] as int - 'a' as int);
      }
      inRange := inRange && InLongLong(value);
      i := i + 1;
      if i == |digits| {
        break;
      }
    }
    assert ds[..i] == ds;
  }

  lemma EvaluateNothing(radix: int)
    ensures Horner([], radix) == 0 && StaysInRange([], radix)
  {}

  lemma EvaluatePush(up: seq<int>, d: int, radix: int)
    ensures Horner(up + [d], radix) == Horner(up, radix) * radix + d
    ensures StaysInRange(up + [d], radix) <==>
      StaysInRange(up, radix) && InLongLong(Horner(up, radix) * radix) && InLongLong(Horner(up, radix) * radix + d)
  {
    assert (up + [d])[..|up|] == up;
  }

  // ---- Reading back what was written ------------------------------------------------------

  predicate NoLetters(ds: seq<Digit>) {
    forall i :: 0 <= i < |ds| ==> ds[i] < 10
  }

  lemma ReadPush(ds: seq<Digit>, d: Digit)
    ensures CharValues(Chars(ds + [d])) == CharValues(Chars(ds)) + [if d < 10 then d else d - 10]
    ensures NoLetters(ds + [d]) <==> NoLetters(ds) && d < 10
  {
    assert NoLetters(ds + [d]) ==> forall i :: 0 <= i < |ds| ==> (ds + [d])[i] == ds[i];
    assert NoLetters(ds + [d]) ==> (ds + [d])[|ds|] < 10;
  }

  lemma MulLess(h: int, q: int, low: int, d: int, radix: int)
    requires 0 <= h <= q && 0 <= low <= d && 0 < radix
    ensures 0 <= h * radix <= q * radix
    ensures h * radix + low <= q * radix + d
    ensures h * radix + low == q * radix + d <==> h == q && low == d
  {
    if h < q {
      MulLe(h + 1, q, radix);
    }
  }

  /** Digits written as text and evaluated again never exceed the number, reach it exactly when
      none of them was written as a letter, and never leave the range on the way. */
  lemma {:induction false} DigitsReadBack(v: nat, radix: nat)
    requires IsRadix(radix) && v <= LL_MAX
    ensures var ds := CharValues(Chars(Digits(v, radix)));
      && 0 <= Horner(ds, radix) <= v
      && (Horner(ds, radix) == v <==> NoLetters(Digits(v, radix)))
      && StaysInRange(ds, radix)
    decreases v
  {
    hide Digits, Horner, StaysInRange, NoLetters, Chars, CharValues;
    if v > 0 {
      var q, d := LastDigit(v, radix);
      DigitsReadBack(q, radix);
      var up := CharValues(Chars(Digits(q, radix)));
      var low := if d < 10 then d else d - 10;
      ReadPush(Digits(q, radix), d);
      EvaluatePush(up, low, radix);
      MulLess(Horner(up, radix), q, low, d, radix);
    } else {
      NoDigits(radix);
      ReadNothing(radix);
    }
  }

  lemma ReadNothing(radix: nat)
    ensures CharValues(Chars([])) == [] && NoLetters([])
    ensures Horner([], radix) == 0 && StaysInRange([], radix)
  {}

  /** Every number above the least one, written in radix 2 to 36 and read again in the same
      radix, is evaluated without overflow and comes back as itself if and only if its text
      holds no letter digit. */
  lemma RoundTripIff(v: int, radix: nat)
    requires InLongLong(v) && v != LL_MIN && IsRadix(radix)
    ensures Decode(Encode(v, radix), radix) == v <==> NoLetters(Digits(Abs(v), radix))
    ensures StaysInRange(CharValues(Unsigned(Encode(v, radix))), radix)
  {
    hide Horner;
    if v == 0 {
      EvaluateNothing(radix);
      EvaluatePush([], 0, radix);
      assert CharValues("0") == [] + [0];
    } else {
      var text := Chars(Digits(Abs(v), radix));
      DigitsReadBack(Abs(v), radix);
      if v < 0 {
        assert ("-" + text)[1..] == text;
      } else {
        assert "" + text == text;
      }
    }
  }

  /** In radix 2 to 10 there are no letters, and the round trip always succeeds. */
  lemma RoundTrip(v: int, radix: nat)
    requires InLongLong(v) && v != LL_MIN && 2 <= radix <= 10
    ensures Decode(Encode(v, radix), radix) == v
    ensures StaysInRange(CharValues(Unsigned(Encode(v, radix))), radix)
  {
    hide Digits, Encode, Decode, StaysInRange;
    RoundTripIff(v, radix);
    var ds := Digits(Abs(v), radix);
    if v == 0 {
      NoDigits(radix);
    } else {
      DigitsShape(Abs(v), radix);
      assert forall i :: 0 <= i < |ds| ==> ds[i] in ds;
    }
  }

  /** The text of a number that is not zero: the sign, then digits below the radix whose
      positional value is the magnitude, the first of them not zero, and exactly as many as the
      magnitude needs. Sign, digits and terminator fit 65 bytes. */
  lemma EncodePositional(v: int, radix: nat)
    requires InLongLong(v) && v != LL_MIN && v != 0 && IsRadix(radix)
    ensures var ds := Digits(Abs(v), radix);
      && Encode(v, radix) == (if v < 0 then "-" else "") + Chars(ds)
      && (forall d :: d in ds ==> d < radix) && ds[0] != 0
      && Horner(ds, radix) == Abs(v)
      && Pow(radix, |ds| - 1) <= Abs(v) < Pow(radix, |ds|)
      && |Encode(v, radix)| + 1 <= 65
  {
    DigitsShape(Abs(v), radix);
    DigitsValue(Abs(v), radix);
    DigitsMagnitude(Abs(v), radix);
    DigitLimit(Abs(v), radix);
  }
}
