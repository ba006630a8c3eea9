/** The FNV-1a hashes of `kash/fnv1a.c`: the 32-bit and 64-bit instances of the two hashing
    loops, and the 16-bit hash that xor-folds the 32-bit one. The constants are those of
    section 2 of draft-eastlake-fnv and the fold is the one of its section 3. */
module Fnv1a {
  import opened CStrings

  const OFFSET_32: bv32 := 0x811c_9dc5
  const OFFSET_64: bv64 := 0xcbf2_9ce4_8422_2325

  /** Multiplication by the 32-bit FNV prime, modulo 2^32. */
  function Scale32(x: bv32): bv32 { x * 0x0100_0193 }

  /** Multiplication by the 64-bit FNV prime, modulo 2^64. */
  function Scale64(x: bv64): bv64 { x * 0x100_0000_01B3 }

  // Multiplication by the inverses of the two primes.
  function Unscale32(x: bv32): bv32 { x * 0x359C_449B }

  function Unscale64(x: bv64): bv64 { x * 0xCE96_5057_AFF6_957B }

  /** One round: xor the byte in, then multiply by the prime. */
  function Round32(h: bv32, b: bv8): bv32 { Scale32(h ^ (b as bv32)) }

  function Round64(h: bv64, b: bv8): bv64 { Scale64(h ^ (b as bv64)) }

  // The rounds run backwards.
  function Unround32(h: bv32, b: bv8): bv32 { Unscale32(h) ^ (b as bv32) }

  function Unround64(h: bv64, b: bv8): bv64 { Unscale64(h) ^ (b as bv64) }

  /** A round applied to every byte of `s`, first byte first. */
  function Digest<H>(round: (H, bv8) -> H, h: H, s: seq<bv8>): H {
    if s == [] then h else Digest(round, round(h, s[0]), s[1..])
  }

  /** A backward round applied to every byte of `s`, last byte first. */
  function Undigest<H>(unround: (H, bv8) -> H, h: H, s: seq<bv8>): H {
    if s == [] then h else unround(Undigest(unround, h, s[1..]), s[0])
  }

  function Hash32(s: seq<bv8>): bv32 { Digest(Round32, OFFSET_32, s) }

  function Hash64(s: seq<bv8>): bv64 { Digest(Round64, OFFSET_64, s) }

  /** The high half of the 32-bit hash xored into the low half. */
  function Fold16(h: bv32): bv16 { ((h >> 16) ^ (h & 0xFFFF)) as bv16 }

  function Hash16(s: seq<bv8>): bv16 { Fold16(Hash32(s)) }

  // ---- The constants ----------------------------------------------------------------------

  /** One round of FNV-0: multiply by the prime, then xor the byte in. */
  function Plain32(h: bv32, b: bv8): bv32 { Scale32(h) ^ (b as bv32) }

  function Plain64(h: bv64, b: bv8): bv64 { Scale64(h) ^ (b as bv64) }

  /** Four rounds. */
  function Plain32By4(h: bv32, w: (bv8, bv8, bv8, bv8)): bv32 {
    Plain32(Plain32(Plain32(Plain32(h, w.0), w.1), w.2), w.3)
  }

  function Plain64By4(h: bv64, w: (bv8, bv8, bv8, bv8)): bv64 {
    Plain64(Plain64(Plain64(Plain64(h, w.0), w.1), w.2), w.3)
  }

  /** The signature `chongo <Landon Curt Noll> /\../\`, four bytes at a time. */
  function Quad(i: nat): (bv8, bv8, bv8, bv8)
    requires i < 8
  {
    match i
    case 0 => (0x63, 0x68, 0x6F, 0x6E)
    case 1 => (0x67, 0x6F, 0x20, 0x3C)
    case 2 => (0x4C, 0x61, 0x6E, 0x64)
    case 3 => (0x6F, 0x6E, 0x20, 0x43)
    case 4 => (0x75, 0x72, 0x74, 0x20)
    case 5 => (0x4E, 0x6F, 0x6C, 0x6C)
    case 6 => (0x3E, 0x20, 0x2F, 0x5C)
    case _ => (0x2E, 0x2E, 0x2F, 0x5C)
  }

  /** The signature from its `i`-th four bytes on. */
  function SignatureFrom(i: nat): seq<bv8>
    requires i <= 8
    decreases 8 - i
  {
    if i == 8 then [] else [Quad(i).0, Quad(i).1, Quad(i).2, Quad(i).3] + SignatureFrom(i + 1)
  }

  // The state before the `i`-th four bytes.
  function Trail32(i: nat): bv32
    requires i <= 8
  {
    match i
    case 0 => 0
    case 1 => 0x8bd4_764a
    case 2 => 0x8b8a_e088
    case 3 => 0xcf3d_9a4f
    case 4 => 0xbd39_06bb
    case 5 => 0x6521_a77a
    case 6 => 0x3f4f_5eaf
    case 7 => 0xcb12_9580
    case _ => 0x811c_9dc5
  }

  function Trail64(i: nat): bv64
    requires i <= 8
  {
    match i
    case 0 => 0
    case 1 => 0x59dc_4a01_e5fd_0dca
    case 2 => 0xae6b_e54f_5606_fc28
    case 3 => 0x531b_2a83_3171_456f
    case 4 => 0x2bb0_f8de_7b8a_c83b
    case 5 => 0xd1d5_1294_ea91_559a
    case 6 => 0x1d22_3e45_01e8_284f
    case 7 => 0x3b90_a68e_5840_b5c0
    case _ => 0xcbf2_9ce4_8422_2325
  }

  lemma TrailStep32(i: nat)
    requires i < 8
    ensures Plain32By4(Trail32(i), Quad(i)) == Trail32(i + 1)
  {
    match i {
      case 0 =>
      case 1 =>
      case 2 =>
      case 3 =>
      case 4 =>
      case 5 =>
      case 6 =>
      case _ =>
    }
  }

  lemma TrailStep64(i: nat)
    requires i < 8
    ensures Plain64By4(Trail64(i), Quad(i)) == Trail64(i + 1)
  {
    match i {
      case 0 =>
      case 1 =>
      case 2 =>
      case 3 =>
      case 4 =>
      case 5 =>
      case 6 =>
      case _ =>
    }
  }

  lemma DigestFour<H>(round: (H, bv8) -> H, h: H, w: (bv8, bv8, bv8, bv8), rest: seq<bv8>)
    ensures Digest(round, h, [w.0, w.1, w.2, w.3] + rest)
         == Digest(round, round(round(round(round(h, w.0), w.1), w.2), w.3), rest)
  {
    DigestConcat(round, h, [w.0, w.1, w.2, w.3], rest);
    var h1 := round(h, w.0);
    var h2 := round(h1, w.1);
    var h3 := round(h2, w.2);
    assert [w.0, w.1, w.2, w.3][1..] == [w.1, w.2, w.3];
    assert [w.1, w.2, w.3][1..] == [w.2, w.3] && [w.2, w.3][1..] == [w.3];
    DigestByte(round, h3, [w.3]);
    assert Digest(round, h2, [w.2, w.3]) == round(h3, w.3);
  }

  lemma {:induction false} TrailEnds(i: nat)
    requires i <= 8
    ensures Digest(Plain32, Trail32(i), SignatureFrom(i)) == OFFSET_32
    ensures Digest(Plain64, Trail64(i), SignatureFrom(i)) == OFFSET_64
    decreases 8 - i
  {
    hide Plain32, Plain64, Quad;
    if i < 8 {
      hide Trail32, Trail64;
      TrailStep32(i);
      TrailStep64(i);
      DigestFour(Plain32, Trail32(i), Quad(i), SignatureFrom(i + 1));
      DigestFour(Plain64, Trail64(i), Quad(i), SignatureFrom(i + 1));
      TrailEnds(i + 1);
    }
  }

  /** Both offsets are what FNV-0, which starts at zero, makes of the 32-byte signature: this
      fixes the offsets and, with them, the primes. */
  lemma OffsetsAreSigned()
    ensures Digest(Plain32, 0, SignatureFrom(0)) == OFFSET_32
    ensures Digest(Plain64, 0, SignatureFrom(0)) == OFFSET_64
  {
    TrailEnds(0);
  }

  // ---- The hashing loops ------------------------------------------------------------------

  lemma DigestPush<H>(round: (H, bv8) -> H, h: H, s: seq<bv8>, k: nat)
    requires k < |s|
    ensures Digest(round, h, s[..k + 1]) == round(Digest(round, h, s[..k]), s[k])
  {
    if k > 0 {
      DigestPush(round, round(h, s[0]), s[1..], k - 1);
      assert s[1..][..k] == s[..k + 1][1..] && s[1..][..k - 1] == s[..k][1..];
    }
  }

  /** A further byte is xored into the hash so far, and the prime scales the outcome; the 16-bit
      hash is the two halves of the 32-bit one, xored. This and the empty text fix the hashes. */
  lemma HashGrows(s: seq<bv8>, b: bv8)
    ensures Hash32([]) == 0x811c_9dc5 && Hash32(s + [b]) == (Hash32(s) ^ (b as bv32)) * 0x0100_0193
    ensures Hash64([]) == 0xcbf2_9ce4_8422_2325
    ensures Hash64(s + [b]) == (Hash64(s) ^ (b as bv64)) * 0x100_0000_01B3
    ensures Hash16(s) == ((Hash32(s) >> 16) as bv16) ^ ((Hash32(s) & 0xFFFF) as bv16)
  {
    HashGrows32(s, b);
    HashGrows64(s, b);
    FoldHalves(Hash32(s));
  }

  lemma HashGrows32(s: seq<bv8>, b: bv8)
    ensures Hash32(s + [b]) == (Hash32(s) ^ (b as bv32)) * 0x0100_0193
  {
    hide Round32, Scale32;
    HashPush32(s, b);
    RoundMeans32(Hash32(s), b);
  }

  lemma HashPush32(s: seq<bv8>, b: bv8)
    ensures Hash32(s + [b]) == Round32(Hash32(s), b)
  {
    hide Round32;
    DigestPush(Round32, OFFSET_32, s + [b], |s|);
    assert (s + [b])[..|s|] == s && (s + [b])[..|s| + 1] == s + [b];
  }

  lemma RoundMeans32(h: bv32, b: bv8)
    ensures Round32(h, b) == (h ^ (b as bv32)) * 0x0100_0193
  {}

  lemma HashGrows64(s: seq<bv8>, b: bv8)
    ensures Hash64(s + [b]) == (Hash64(s) ^ (b as bv64)) * 0x100_0000_01B3
  {
    hide Round64, Scale64;
    HashPush64(s, b);
    RoundMeans64(Hash64(s), b);
  }

  lemma HashPush64(s: seq<bv8>, b: bv8)
    ensures Hash64(s + [b]) == Round64(Hash64(s), b)
  {
    hide Round64;
    DigestPush(Round64, OFFSET_64, s + [b], |s|);
    assert (s + [b])[..|s|] == s && (s + [b])[..|s| + 1] == s + [b];
  }

  lemma RoundMeans64(h: bv64, b: bv8)
    ensures Round64(h, b) == (h ^ (b as bv64)) * 0x100_0000_01B3
  {}

  lemma FoldHalves(h: bv32)
    ensures h >> 16 < 0x1_0000 && h & 0xFFFF < 0x1_0000
    ensures Fold16(h) == ((h >> 16) as bv16) ^ ((h & 0xFFFF) as bv16)
  {}

  /** The loop of the `FNV1A` macro, over a buffer of known size. */
  method DigestBuffer<H>(round: (H, bv8) -> H, offset: H, value: seq<bv8>) returns (hash: H)
    ensures hash == Digest(round, offset, value)
  {
    hash := offset;
    for i := 0 to |value|
      invariant hash == Digest(round, offset, value[..i])
    {
      DigestPush(round, offset, value, i);
      hash := round(hash, value[i]);
    }
    assert value[..|value|] == value;
  }

  /** The loop of the `FNV1A_str` macro, which stops at the first NUL. */
  method DigestString<H>(round: (H, bv8) -> H, offset: H, str: seq<bv8>) returns (hash: H)
    requires 0 in str
    ensures hash == Digest(round, offset, str[..Length(str, 0)])
  {
    hash := offset;
    var i := 0;
    while str[i] != 0
      invariant i <= Length(str, 0)
      invariant hash == Digest(round, offset, str[..i])
      decreases |str| - i
    {
      DigestPush(round, offset, str, i);
      hash := round(hash, str[i]);
      i := i + 1;
    }
  }

  method HashBuffer32(value: seq<bv8>) returns (hash: bv32)
    ensures hash == Hash32(value)
  {
    hash := DigestBuffer(Round32, OFFSET_32, value);
  }

  method HashString32(str: seq<bv8>) returns (hash: bv32)
    requires 0 in str
    ensures hash == Hash32(str[..Length(str, 0)])
  {
    hash := DigestString(Round32, OFFSET_32, str);
  }

  method HashBuffer64(value: seq<bv8>) returns (hash: bv64)
    ensures hash == Hash64(value)
  {
    hash := DigestBuffer(Round64, OFFSET_64, value);
  }

  method HashString64(str: seq<bv8>) returns (hash: bv64)
    requires 0 in str
    ensures hash == Hash64(str[..Length(str, 0)])
  {
    hash := DigestString(Round64, OFFSET_64, str);
  }

  method HashBuffer16(value: seq<bv8>) returns (hash: bv16)
    ensures hash == Hash16(value)
  {
    var b32 := HashBuffer32(value);
    hash := Fold16(b32);
  }

  method HashString16(str: seq<bv8>) returns (hash: bv16)
    requires 0 in str
    ensures hash == Hash16(str[..Length(str, 0)])
  {
    var b32 := HashString32(str);
    hash := Fold16(b32);
  }

  /** The buffer form and the C-string form of all three hashes agree on every NUL-free
      string, whatever follows its terminator. */
  method FormsAgree(s: seq<bv8>, after: seq<bv8>)
    returns (b16: bv16, b32: bv32, b64: bv64, s16: bv16, s32: bv32, s64: bv64)
    requires 0 !in s
    ensures b16 == s16 && b32 == s32 && b64 == s64
    ensures b16 == Hash16(s) && b32 == Hash32(s) && b64 == Hash64(s)
  {
    var str := s + [0] + after;
    assert str[|s|] == 0;
    TerminatorFirst(s, 0, after);
    assert str[..|s|] == s;
    b16 := HashBuffer16(s);
    b32 := HashBuffer32(s);
    b64 := HashBuffer64(s);
    s16 := HashString16(str);
    s32 := HashString32(str);
    s64 := HashString64(str);
  }

  // ---- Every round is a bijection of the state --------------------------------------------

  lemma UnscaleProduct32(x: bv32)
    ensures Unscale32(x * 0x0100_0193) == x
  {}

  lemma ScaleProduct32(x: bv32)
    ensures Scale32(x * 0x359C_449B) == x
  {}

  lemma UnscaleProduct64(x: bv64)
    ensures Unscale64(x * 0x100_0000_01B3) == x
  {}

  lemma ScaleProduct64(x: bv64)
    ensures Scale64(x * 0xCE96_5057_AFF6_957B) == x
  {}

  /** `unround` undoes `round` on both sides, whatever the byte. */
  ghost predicate Inverts<H(!new)>(round: (H, bv8) -> H, unround: (H, bv8) -> H) {
    forall h, b :: unround(round(h, b), b) == h && round(unround(h, b), b) == h
  }

  /** Different bytes take a state to different states. */
  ghost predicate Separates<H(!new)>(round: (H, bv8) -> H) {
    forall h, a, b :: round(h, a) == round(h, b) ==> a == b
  }

  lemma Xor32(h: bv32, b: bv32)
    ensures (h ^ b) ^ b == h && h ^ (h ^ b) == b
  {}

  lemma Xor64(h: bv64, b: bv64)
    ensures (h ^ b) ^ b == h && h ^ (h ^ b) == b
  {}

  lemma UnroundProduct32(x: bv32, b: bv8)
    ensures Unround32(Scale32(x), b) == x ^ (b as bv32)
  {
    UnscaleProduct32(x);
  }

  lemma Round32Undone(h: bv32, b: bv8)
    ensures Unround32(Round32(h, b), b) == h
  {
    var x := h ^ (b as bv32);
    UnroundProduct32(x, b);
    Xor32(h, b as bv32);
    assert Round32(h, b) == Scale32(x);
  }

  lemma Unround32Undone(h: bv32, b: bv8)
    ensures Round32(Unround32(h, b), b) == h
  {
    ScaleProduct32(h);
    Xor32(Unscale32(h), b as bv32);
  }

  lemma Round32Separated(h: bv32, a: bv8, b: bv8)
    requires Round32(h, a) == Round32(h, b)
    ensures a == b
  {
    UnscaleProduct32(h ^ (a as bv32));
    UnscaleProduct32(h ^ (b as bv32));
    Xor32(h, a as bv32);
    Xor32(h, b as bv32);
  }

  lemma Round32Bijective()
    ensures Inverts(Round32, Unround32) && Separates(Round32)
  {
    forall h, b ensures Unround32(Round32(h, b), b) == h && Round32(Unround32(h, b), b) == h {
      Round32Undone(h, b);
      Unround32Undone(h, b);
    }
    forall h, a, b | Round32(h, a) == Round32(h, b) ensures a == b {
      Round32Separated(h, a, b);
    }
  }

  lemma UnroundProduct64(x: bv64, b: bv8)
    ensures Unround64(Scale64(x), b) == x ^ (b as bv64)
  {
    UnscaleProduct64(x);
  }

  lemma Round64Undone(h: bv64, b: bv8)
    ensures Unround64(Round64(h, b), b) == h
  {
    var x := h ^ (b as bv64);
    UnroundProduct64(x, b);
    Xor64(h, b as bv64);
    assert Round64(h, b) == Scale64(x);
  }

  lemma Unround64Undone(h: bv64, b: bv8)
    ensures Round64(Unround64(h, b), b) == h
  {
    ScaleProduct64(h);
    Xor64(Unscale64(h), b as bv64);
  }

  lemma Round64Separated(h: bv64, a: bv8, b: bv8)
    requires Round64(h, a) == Round64(h, b)
    ensures a == b
  {
    UnscaleProduct64(h ^ (a as bv64));
    UnscaleProduct64(h ^ (b as bv64));
    Xor64(h, a as bv64);
    Xor64(h, b as bv64);
  }

  lemma Round64Bijective()
    ensures Inverts(Round64, Unround64) && Separates(Round64)
  {
    forall h, b ensures Unround64(Round64(h, b), b) == h && Round64(Unround64(h, b), b) == h {
      Round64Undone(h, b);
      Unround64Undone(h, b);
    }
    forall h, a, b | Round64(h, a) == Round64(h, b) ensures a == b {
      Round64Separated(h, a, b);
    }
  }

  lemma RoundUndone<H(!new)>(round: (H, bv8) -> H, unround: (H, bv8) -> H, h: H, b: bv8)
    requires Inverts(round, unround)
    ensures unround(round(h, b), b) == h && round(unround(h, b), b) == h
  {}

  /** Hashing a fixed string is a bijection of the starting state: running the rounds
      backwards, last byte first, recovers the state on both sides. */
  lemma {:induction false} DigestBijective<H(!new)>(
    round: (H, bv8) -> H, unround: (H, bv8) -> H, h: H, s: seq<bv8>)
    requires Inverts(round, unround)
    ensures Undigest(unround, Digest(round, h, s), s) == h
    ensures Digest(round, Undigest(unround, h, s), s) == h
    decreases |s|
  {
    if s == [] {
    } else {
      DigestBijective(round, unround, round(h, s[0]), s[1..]);
      DigestBijective(round, unround, h, s[1..]);
      RoundUndone(round, unround, h, s[0]);
      RoundUndone(round, unround, Undigest(unround, h, s[1..]), s[0]);
    }
  }

  lemma {:induction false} DigestConcat<H>(round: (H, bv8) -> H, h: H, s: seq<bv8>, t: seq<bv8>)
    ensures Digest(round, h, s + t) == Digest(round, Digest(round, h, s), t)
  {
    if s == [] {
      assert s + t == t;
    } else {
      DigestConcat(round, round(h, s[0]), s[1..], t);
      assert (s + t)[1..] == s[1..] + t;
    }
  }

  /** `s` and `t` have the same length and differ at position `k` and nowhere else. */
  ghost predicate DifferOnlyAt(s: seq<bv8>, t: seq<bv8>, k: nat) {
    && k < |s| == |t|
    && s[k] != t[k]
    && forall i :: 0 <= i < |s| && i != k ==> s[i] == t[i]
  }

  lemma SingleDifferenceSeparates<H(!new)>(
    round: (H, bv8) -> H, unround: (H, bv8) -> H, h: H, s: seq<bv8>, t: seq<bv8>, k: nat)
    requires Inverts(round, unround) && Separates(round)
    requires DifferOnlyAt(s, t, k)
    ensures Digest(round, h, s) != Digest(round, h, t)
  {
    var suffix := s[k + 1..];
    assert s == s[..k + 1] + suffix && t == t[..k + 1] + suffix && s[..k] == t[..k];
    DigestConcat(round, h, s[..k + 1], suffix);
    DigestConcat(round, h, t[..k + 1], suffix);
    DigestPush(round, h, s, k);
    DigestPush(round, h, t, k);
    DigestBijective(round, unround, Digest(round, h, s[..k + 1]), suffix);
    DigestBijective(round, unround, Digest(round, h, t[..k + 1]), suffix);
  }

  /** Strings that differ in exactly one byte never collide under the 32-bit and the 64-bit
      hash. */
  lemma OneByteChangesHash(s: seq<bv8>, t: seq<bv8>, k: nat)
    requires DifferOnlyAt(s, t, k)
    ensures Hash32(s) != Hash32(t) && Hash64(s) != Hash64(t)
  {
    Round32Bijective();
    Round64Bijective();
    SingleDifferenceSeparates(Round32, Unround32, OFFSET_32, s, t, k);
    SingleDifferenceSeparates(Round64, Unround64, OFFSET_64, s, t, k);
  }

  // ---- The 16-bit fold --------------------------------------------------------------------

  /** Any two strings of length `n` that differ in exactly one byte have different 16-bit hashes. */
  ghost predicate FoldSeparates(n: nat) {
    forall s, t, k :: |s| == n && DifferOnlyAt(s, t, k) ==> Hash16(s) != Hash16(t)
  }

  /** After one byte the fold still tells all bytes apart. */
  lemma FirstRoundFolds(a: bv8, b: bv8)
    requires Fold16(Round32(OFFSET_32, a)) == Fold16(Round32(OFFSET_32, b))
    ensures a == b
  {}

  lemma DigestByte<H>(round: (H, bv8) -> H, h: H, s: seq<bv8>)
    requires |s| == 1
    ensures Digest(round, h, s) == round(h, s[0])
  {}

  /** A state from which two last bytes fold alike makes the strings through it collide. */
  lemma LastByteCollides(prefix: seq<bv8>, h: bv32, a: bv8, b: bv8)
    requires Digest(Round32, OFFSET_32, prefix) == h && a != b
    requires Fold16(Round32(h, a)) == Fold16(Round32(h, b))
    ensures DifferOnlyAt(prefix + [a], prefix + [b], |prefix|)
    ensures Hash16(prefix + [a]) == Hash16(prefix + [b])
  {
    hide Digest, Round32, Fold16;
    DigestConcat(Round32, OFFSET_32, prefix, [a]);
    DigestConcat(Round32, OFFSET_32, prefix, [b]);
    DigestByte(Round32, h, [a]);
    DigestByte(Round32, h, [b]);
  }

  lemma DigestPair(h: bv32, a: bv8, b: bv8)
    ensures Digest(Round32, h, [a, b]) == Round32(Round32(h, a), b)
  {
    hide Round32;
    assert [a, b] == [a] + [b];
    DigestConcat(Round32, h, [a], [b]);
    DigestByte(Round32, h, [a]);
    DigestByte(Round32, Round32(h, a), [b]);
  }

  /** Four bytes that take the state to zero. */
  const TO_ZERO: seq<bv8> := [0xCC, 0x24] + [0x31, 0xC4]

  lemma StateZero()
    ensures Digest(Round32, OFFSET_32, TO_ZERO) == 0
  {
    DigestConcat(Round32, OFFSET_32, [0xCC, 0x24], [0x31, 0xC4]);
    DigestPair(OFFSET_32, 0xCC, 0x24);
    DigestPair(0x0BA4_869D, 0x31, 0xC4);
    assert Round32(OFFSET_32, 0xCC) == 0x490B_352B && Round32(0x490B_352B, 0x24) == 0x0BA4_869D;
    assert Round32(0x0BA4_869D, 0x31) == 0xC4 && Round32(0xC4, 0xC4) == 0;
  }

  function Zeros(n: nat): (s: seq<bv8>)
    ensures |s| == n
  {
    if n == 0 then [] else [0] + Zeros(n - 1)
  }

  /** Zero bytes keep the state at zero. */
  lemma {:induction false} ZerosKeepZero(n: nat)
    ensures Digest(Round32, 0, Zeros(n)) == 0
  {
    if n == 0 {
    } else {
      assert Round32(0, 0) == 0;
      assert Zeros(n)[1..] == Zeros(n - 1);
      ZerosKeepZero(n - 1);
    }
  }

  /** Two strings of any length from two on that differ in their last byte only and collide. */
  lemma Collision(n: nat) returns (s: seq<bv8>, t: seq<bv8>)
    requires n >= 2
    ensures |s| == n && DifferOnlyAt(s, t, n - 1) && Hash16(s) == Hash16(t)
  {
    var prefix: seq<bv8>, h: bv32, a: bv8, b: bv8;
    if n == 2 {
      prefix, h, a, b := [2], 0x070C_6045, 165, 88;
      DigestByte(Round32, OFFSET_32, prefix);
      ShortCollisions();
    } else if n == 3 {
      prefix, h, a, b := [0, 1], 0x1076_963A, 113, 138;
      DigestPair(OFFSET_32, 0, 1);
      ShortCollisions();
    } else if n == 4 {
      prefix, h, a, b := [0, 0] + [1], 0x49B0_F624, 24, 133;
      DigestPair(OFFSET_32, 0, 0);
      DigestConcat(Round32, OFFSET_32, [0, 0], [1]);
      DigestByte(Round32, 0x1176_97CD, [1]);
      ShortCollisions();
    } else {
      prefix, h, a, b := TO_ZERO + Zeros(n - 5), 0, 145, 246;
      StateZero();
      ZerosKeepZero(n - 5);
      DigestConcat(Round32, OFFSET_32, TO_ZERO, Zeros(n - 5));
      ShortCollisions();
    }
    LastByteCollides(prefix, h, a, b);
    s, t := prefix + [a], prefix + [b];
  }

  lemma ShortCollisions()
    ensures Round32(OFFSET_32, 2) == 0x070C_6045
    ensures Fold16(Round32(0x070C_6045, 165)) == Fold16(Round32(0x070C_6045, 88))
    ensures Round32(OFFSET_32, 0) == 0x050C_5D1F
    ensures Round32(0x050C_5D1F, 1) == 0x1076_963A && Round32(0x050C_5D1F, 0) == 0x1176_97CD
    ensures Fold16(Round32(0x1076_963A, 113)) == Fold16(Round32(0x1076_963A, 138))
    ensures Round32(0x1176_97CD, 1) == 0x49B0_F624
    ensures Fold16(Round32(0x49B0_F624, 24)) == Fold16(Round32(0x49B0_F624, 133))
    ensures Fold16(Round32(0, 145)) == Fold16(Round32(0, 246))
  {}

  /** The 16-bit fold keeps the guarantee of the wider hashes exactly for strings of at most one
      byte. */
  lemma FoldSeparatesIff(n: nat)
    ensures FoldSeparates(n) <==> n <= 1
  {
    hide Fold16, Round32;
    if n <= 1 {
      forall s, t, k | |s| == n && DifferOnlyAt(s, t, k) ensures Hash16(s) != Hash16(t) {
        DigestByte(Round32, OFFSET_32, s);
        DigestByte(Round32, OFFSET_32, t);
        if Hash16(s) == Hash16(t) { FirstRoundFolds(s[0], t[0]); }
      }
    } else {
      var s, t := Collision(n);
      assert DifferOnlyAt(s, t, n - 1);
    }
  }
}
