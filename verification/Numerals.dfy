/** What it means that a text writes a number, said without the conversions of `minifmt.c`. */
module Numerals {
  import opened NumberText

  const SHAPES: string := "0123456789abcdefghijklmnopqrstuvwxyz"
  const DECIMALS: string := "0123456789"
  const LETTERS: string := "abcdefghijklmnopqrstuvwxyz"

  /** Every digit counts times the power of the radix for its place. */
  function Positional(ds: seq<int>, radix: nat): int {
    if ds == [] then 0 else ds[0] * Pow(radix, |ds| - 1) + Positional(ds[1..], radix)
  }

  function Shapes(ds: seq<nat>): (s: string)
    requires forall k :: 0 <= k < |ds| ==> ds[k] < 36
    ensures |s| == |ds| && forall k :: 0 <= k < |ds| ==> s[k] == SHAPES[ds[k]]
  {
    seq(|ds|, k requires 0 <= k < |ds| => SHAPES[ds[k]])
  }

  /** The text is a minus sign if `l` is negative, then the shapes of digits below the radix, the
      first not zero, whose positional value is the magnitude of `l`. */
  predicate WritesDigits(text: string, l: int, radix: nat, ds: seq<nat>) {
    && radix <= 36 && ds != [] && ds[0] != 0
    && (forall k :: 0 <= k < |ds| ==> ds[k] < radix)
    && Positional(ds, radix) == (if l < 0 then -l else l)
    && text == (if l < 0 then "-" else "") + Shapes(ds)
  }

  /** The text writes the number in the radix; zero is a single zero. */
  ghost predicate Writes(text: string, l: int, radix: nat) {
    if l == 0 then text == "0" else exists ds :: WritesDigits(text, l, radix, ds)
  }

  // ---- Positional value and Horner's scheme -----------------------------------------------

  lemma {:induction false} PositionalPush(ds: seq<int>, d: int, radix: nat)
    ensures Positional(ds + [d], radix) == Positional(ds, radix) * radix + d
    decreases |ds|
  {
    if ds == [] {
      assert [d][1..] == [] && ds + [d] == [d];
    } else {
      var n := |ds|;
      assert (ds + [d])[1..] == ds[1..] + [d];
      PositionalPush(ds[1..], d, radix);
      PushDistributes(ds[0], Pow(radix, n - 1), radix, Positional(ds[1..], radix), d);
    }
  }

  lemma PushDistributes(a: int, p: int, r: int, rest: int, d: int)
    ensures a * (r * p) + (rest * r + d) == (a * p + rest) * r + d
  {}

  lemma {:induction false} PositionalIsHorner(ds: seq<int>, radix: nat)
    ensures Positional(ds, radix) == Horner(ds, radix)
    decreases |ds|
  {
    if ds == [] {
    } else {
      var up, d := ds[..|ds| - 1], ds[|ds| - 1];
      assert ds == up + [d];
      PositionalIsHorner(up, radix);
      PositionalPush(up, d, radix);
    }
  }

  // ---- Writing ----------------------------------------------------------------------------

  lemma DigitShape(d: Digit)
    ensures DigitChar(d) == SHAPES[d]
  {}

  lemma CharsAreShapes(ds: seq<Digit>)
    ensures Chars(ds) == Shapes(ds)
  {
    hide DigitChar;
    forall k | 0 <= k < |ds| ensures Chars(ds)[k] == Shapes(ds)[k] { DigitShape(ds[k]); }
  }

  lemma DivisionUnique(v: nat, q: nat, d: nat, radix: nat)
    requires v == q * radix + d && d < radix
    ensures v / radix == q && v % radix == d
  {
    var q', d' := v / radix, v % radix;
    assert v == q' * radix + d' && 0 <= d' < radix;
    assert (q - q') * radix == d' - d;
    assert q - q' >= 1 ==> (q - q') * radix >= radix;
    assert q' - q >= 1 ==> (q' - q) * radix >= radix;
  }

  /** A number has one sequence of digits that does not start with zero. */
  lemma {:induction false} DigitsUnique(ds: seq<nat>, v: nat, radix: nat)
    requires IsRadix(radix) && ds != [] && ds[0] != 0
    requires (forall k :: 0 <= k < |ds| ==> ds[k] < radix) && Horner(ds, radix) == v
    ensures v > 0 && ds == Digits(v, radix)
    decreases |ds|
  {
    var up, d := ds[..|ds| - 1], ds[|ds| - 1];
    assert ds == up + [d];
    if up == [] {
      assert v == d;
      DivisionUnique(v, 0, d, radix);
      NoDigits(radix);
    } else {
      var q := Horner(up, radix);
      PositionalNat(up, radix);
      DigitsUnique(up, q, radix);
      DivisionUnique(v, q, d, radix);
      assert q * radix >= 0;
    }
    DigitsUnfold(v, radix);
  }

  lemma {:induction false} PositionalNat(ds: seq<nat>, radix: nat)
    ensures Horner(ds, radix) >= 0
    decreases |ds|
  {
    if ds == [] {
    } else {
      PositionalNat(ds[..|ds| - 1], radix);
      MulLe(0, Horner(ds[..|ds| - 1], radix), radix);
    }
  }

  lemma EncodeWrites(l: int, radix: nat)
    requires InLongLong(l) && l != LL_MIN && IsRadix(radix)
    ensures Writes(Encode(l, radix), l, radix)
  {
    if l != 0 {
      hide Digits, Horner, Shapes, Positional, Chars, Pow;
      var digits := Digits(Abs(l), radix);
      EncodePositional(l, radix);
      PositionalIsHorner(digits, radix);
      CharsAreShapes(digits);
      assert forall k :: 0 <= k < |digits| ==> digits[k] in digits;
      assert WritesDigits(Encode(l, radix), l, radix, digits);
    }
  }

  lemma WritesIsEncode(text: string, l: int, radix: nat, ds: seq<nat>)
    requires InLongLong(l) && l != LL_MIN && l != 0 && IsRadix(radix) && WritesDigits(text, l, radix, ds)
    ensures text == Encode(l, radix)
  {
    hide Digits, Horner, Shapes, Positional, Chars;
    PositionalIsHorner(ds, radix);
    DigitsUnique(ds, Abs(l), radix);
    CharsAreShapes(Digits(Abs(l), radix));
  }

  /** Encoding gives the one text that writes the number. */
  lemma EncodeIff(text: string, l: int, radix: nat)
    requires InLongLong(l) && l != LL_MIN && IsRadix(radix)
    ensures Writes(text, l, radix) <==> text == Encode(l, radix)
  {
    hide WritesDigits;
    EncodeWrites(l, radix);
    if l != 0 {
      if ds :| WritesDigits(text, l, radix, ds) { WritesIsEncode(text, l, radix, ds); }
    }
  }

  // ---- Reading ----------------------------------------------------------------------------

  /** The digits that the decoder takes characters for: letters count from zero. */
  predicate Reads(s: string, ds: seq<nat>) {
    |s| == |ds| && forall k :: 0 <= k < |s| ==> ReadsAs(s[k], ds[k])
  }

  predicate ReadsAs(c: char, d: nat) {
    (d < 10 && c == DECIMALS[d]) || (d < 26 && c == LETTERS[d])
  }

  lemma ReadsValue(c: char, d: nat)
    requires ReadsAs(c, d)
    ensures CharValue(c) == d && c != '+' && c != '-'
  {}

  /** Digits have their positional value, with a plus sign as without, and with a minus sign the
      negated one. */
  lemma DecodeValue(s: string, ds: seq<nat>, radix: nat)
    requires Reads(s, ds)
    ensures Decode(s, radix) == Decode("+" + s, radix) == Positional(ds, radix)
    ensures Decode("-" + s, radix) == -Positional(ds, radix)
  {
    hide ReadsAs, CharValue;
    forall k | 0 <= k < |s| ensures CharValue(s[k]) == ds[k] && s[k] != '+' && s[k] != '-' {
      ReadsValue(s[k], ds[k]);
    }
    assert CharValues(s) == ds;
    PositionalIsHorner(ds, radix);
    assert ("+" + s)[1..] == s && ("-" + s)[1..] == s;
  }

  /** The value of the first `k` digits fits, times the radix, and with the next digit. */
  predicate FitsAt(ds: seq<int>, k: nat, radix: nat)
    requires k < |ds|
  {
    InLongLong(Positional(ds[..k], radix) * radix) && InLongLong(Positional(ds[..k + 1], radix))
  }

  /** Evaluation stays in range exactly when it does at every digit. */
  lemma {:induction false} StaysIff(ds: seq<int>, radix: nat)
    ensures StaysInRange(ds, radix) <==> forall k: nat :: k < |ds| ==> FitsAt(ds, k, radix)
    decreases |ds|
  {
    hide StaysInRange, FitsAt;
    if ds == [] {
      NothingFits(radix);
    } else {
      var n: nat := |ds| - 1;
      var up := ds[..n];
      StaysIff(up, radix);
      LastFits(ds, radix);
      forall k: nat | k < n ensures FitsAt(up, k, radix) <==> FitsAt(ds, k, radix) { SameFit(ds, n, k, radix); }
      assert (forall k: nat :: k < |ds| ==> FitsAt(ds, k, radix)) <==>
        FitsAt(ds, n, radix) && forall k: nat :: k < n ==> FitsAt(up, k, radix);
    }
  }

  lemma SameFit(ds: seq<int>, n: nat, k: nat, radix: nat)
    requires k < n <= |ds|
    ensures FitsAt(ds[..n], k, radix) <==> FitsAt(ds, k, radix)
  {
    assert ds[..n][..k] == ds[..k] && ds[..n][..k + 1] == ds[..k + 1];
  }

  lemma NothingFits(radix: nat)
    ensures StaysInRange([], radix)
  {}

  lemma LastFits(ds: seq<int>, radix: nat)
    requires ds != []
    ensures StaysInRange(ds, radix) <==> StaysInRange(ds[..|ds| - 1], radix) && FitsAt(ds, |ds| - 1, radix)
  {
    PositionalIsHorner(ds[..|ds| - 1], radix);
    PositionalIsHorner(ds, radix);
    assert ds[..|ds|] == ds;
  }
}
