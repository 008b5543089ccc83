/** The Nix variant of base 32: the bytes are read as one little-endian number and written as a
    base-32 numeral with the most significant digit first. */
module NixBase32 {
  import opened Wrappers
  import opened StorePaths

  // ----- numbers and numerals -----

  function LittleEndian(b: seq<bv8>): nat {
    if b == [] then 0 else b[0] as nat + 256 * LittleEndian(b[1..])
  }

  function Pow(base: nat, n: nat): nat {
    if n == 0 then 1 else base * Pow(base, n - 1)
  }

  /** The `l` lowest base-32 digits of `v`, most significant first. */
  function Numeral(v: nat, l: nat): (s: string)
    ensures |s| == l
  {
    if l == 0 then "" else Numeral(v / 32, l - 1) + [NIX_ALPHABET[v % 32]]
  }

  function DigitOf(c: char): nat {
    IndexIn(NIX_ALPHABET, c)
  }

  function IndexIn(s: string, c: char): nat {
    if s == "" || s[0] == c then 0 else 1 + IndexIn(s[1..], c)
  }

  /** Reads a numeral back as a number. */
  function DecodeNumber(s: string): nat {
    if s == "" then 0 else 32 * DecodeNumber(s[..|s| - 1]) + DigitOf(s[|s| - 1])
  }

  function BytesOf(v: nat, n: nat): seq<bv8> {
    if n == 0 then [] else [(v % 256) as bv8] + BytesOf(v / 256, n - 1)
  }

  /** The number of digits for `n` bytes: the least that can hold 8 * n bits. */
  function EncodedLength(n: nat): nat {
    (n * 8 + 4) / 5
  }

  /** What the encoder must produce for `b`. */
  function Encoded(b: seq<bv8>): string {
    Numeral(LittleEndian(b), EncodedLength(|b|))
  }

  /** The reference decoder: the `n` bytes of the number a numeral stands for. */
  function Decoded(s: string, n: nat): seq<bv8> {
    BytesOf(DecodeNumber(s), n)
  }

  // ----- the encoder is invertible -----

  lemma DigitOfAlphabet(d: nat)
    requires d < 32
    ensures DigitOf(NIX_ALPHABET[d]) == d
  {
    IndexInDistinct(NIX_ALPHABET, d);
  }

  lemma {:induction false} IndexInDistinct(s: string, d: nat)
    requires d < |s| && forall i, j | 0 <= i < j < |s| :: s[i] != s[j]
    ensures IndexIn(s, s[d]) == d
  {
    if d > 0 {
      IndexInDistinct(s[1..], d - 1);
    }
  }

  lemma {:induction false} DecodeNumeral(v: nat, l: nat)
    requires v < Pow(32, l)
    ensures DecodeNumber(Numeral(v, l)) == v
  {
    if l > 0 {
      var s := Numeral(v, l);
      assert s[..l - 1] == Numeral(v / 32, l - 1);
      DecodeNumeral(v / 32, l - 1);
      DigitOfAlphabet(v % 32);
    }
  }

  lemma {:induction false} LittleEndianBound(b: seq<bv8>)
    ensures LittleEndian(b) < Pow(256, |b|)
  {
    if b != [] {
      LittleEndianBound(b[1..]);
    }
  }

  lemma MulAssoc(a: nat, b: nat, c: nat)
    ensures a * (b * c) == a * b * c
  {
  }

  lemma {:induction false} PowAdd(base: nat, m: nat, n: nat)
    ensures Pow(base, m + n) == Pow(base, m) * Pow(base, n)
  {
    if m > 0 {
      PowAdd(base, m - 1, n);
      MulAssoc(base, Pow(base, m - 1), Pow(base, n));
      assert Pow(base, m + n) == base * Pow(base, m - 1 + n);
    }
  }

  lemma {:induction false} PowOfTwo(k: nat, n: nat)
    ensures Pow(Pow(2, k), n) == Pow(2, k * n)
  {
    if n > 0 {
      PowOfTwo(k, n - 1);
      PowAdd(2, k, k * (n - 1));
      assert k * n == k + k * (n - 1);
    }
  }

  lemma {:induction false} PowPositive(base: nat, n: nat)
    requires base > 0
    ensures Pow(base, n) > 0
  {
    if n > 0 {
      PowPositive(base, n - 1);
    }
  }

  lemma EnoughDigits(n: nat)
    ensures Pow(256, n) <= Pow(32, EncodedLength(n))
  {
    var l := EncodedLength(n);
    SmallPowers();
    PowOfTwo(8, n);
    PowOfTwo(5, l);
    PowMonotone(8 * n, 5 * l);
  }

  lemma {:induction false} PowMonotone(n: nat, m: nat)
    requires n <= m
    ensures Pow(2, n) <= Pow(2, m)
    decreases m
  {
    if n < m {
      PowMonotone(n, m - 1);
    }
  }

  lemma {:induction false} BytesOfLittleEndian(b: seq<bv8>)
    ensures BytesOf(LittleEndian(b), |b|) == b
  {
    if b != [] {
      BytesOfLittleEndian(b[1..]);
      ByteRoundTrip(b[0]);
      assert LittleEndian(b) % 256 == b[0] as nat;
      assert LittleEndian(b) / 256 == LittleEndian(b[1..]);
    }
  }

  lemma ByteRoundTrip(x: bv8)
    ensures (x as nat) as bv8 == x
  {
  }

  /** The reference decoder undoes the encoder. */
  lemma DecodedEncoded(b: seq<bv8>)
    ensures Decoded(Encoded(b), |b|) == b
  {
    LittleEndianBound(b);
    EnoughDigits(|b|);
    DecodeNumeral(LittleEndian(b), EncodedLength(|b|));
    BytesOfLittleEndian(b);
  }

  /** Inputs of one length have different encodings. */
  lemma EncodedInjective(a: seq<bv8>, b: seq<bv8>)
    requires |a| == |b| && Encoded(a) == Encoded(b)
    ensures a == b
  {
    DecodedEncoded(a);
    DecodedEncoded(b);
  }

  // ----- division by products -----

  lemma MulMono(a: nat, b: nat, c: nat)
    requires a <= b
    ensures a * c <= b * c
  {
  }

  lemma DivBetween(v: nat, d: nat, q: nat)
    requires d > 0 && q * d <= v < (q + 1) * d
    ensures v / d == q
  {
    var q' := v / d;
    if q' < q {
      MulMono(q' + 1, q, d);
    } else if q' > q {
      MulMono(q + 1, q', d);
    }
  }

  lemma Euclid(v: nat, d: nat)
    requires d > 0
    ensures v / d * d <= v < (v / d + 1) * d
  {
  }

  lemma MulSwap(r: nat, b: nat, a: nat)
    ensures r * b * a == r * (a * b)
  {
  }

  lemma DivDiv(v: nat, a: nat, b: nat)
    requires a > 0 && b > 0
    ensures a * b > 0 && v / (a * b) == v / a / b
  {
    var q := v / a;
    var r := q / b;
    Euclid(v, a);
    Euclid(q, b);
    MulMono(r * b, q, a);
    MulMono(q + 1, (r + 1) * b, a);
    MulSwap(r, b, a);
    MulSwap(r + 1, b, a);
    DivBetween(v, a * b, r);
  }

  // ----- the digit at a bit position -----

  /** The digit at bit position `bit` of byte `x`, with `y` the byte above it (0 if there is none). */
  function Window(x: bv8, y: bv8, bit: nat): bv8
    requires bit < 8
  {
    var val := x >> bit;
    (if bit > 3 then val | (y << (8 - bit)) else val) & 0x1f
  }

  lemma LowFive(x: bv8)
    ensures (x & 0x1f) as nat == x as nat % 32
  {
  }

  lemma ShiftRightSmall(x: bv8)
    ensures (x >> 1) as nat == x as nat / 2 && (x >> 2) as nat == x as nat / 4 && (x >> 3) as nat == x as nat / 8
  {
  }

  lemma ShiftRightLarge(x: bv8)
    ensures (x >> 4) as nat == x as nat / 16 && (x >> 5) as nat == x as nat / 32
    ensures (x >> 6) as nat == x as nat / 64 && (x >> 7) as nat == x as nat / 128
  {
  }

  lemma SameShift(x: bv8, bit: nat)
    requires bit < 8
    ensures x >> bit == if bit == 0 then x else if bit == 1 then x >> 1 else if bit == 2 then x >> 2
                        else if bit == 3 then x >> 3 else if bit == 4 then x >> 4 else if bit == 5 then x >> 5
                        else if bit == 6 then x >> 6 else x >> 7
  {
  }

  lemma ShiftRight(x: bv8, bit: nat)
    requires bit < 8
    ensures Pow(2, bit) > 0 && (x >> bit) as nat == x as nat / Pow(2, bit)
  {
    SmallPowers();
    ShiftRightSmall(x);
    ShiftRightLarge(x);
    SameShift(x, bit);
  }

  lemma ShiftLeft1(y: bv8)
    ensures (y << 1) as nat == y as nat % 128 * 2
  {
  }

  lemma ShiftLeft2(y: bv8)
    ensures (y << 2) as nat == y as nat % 64 * 4
  {
  }

  lemma ShiftLeft3(y: bv8)
    ensures (y << 3) as nat == y as nat % 32 * 8
  {
  }

  lemma ShiftLeft4(y: bv8)
    ensures (y << 4) as nat == y as nat % 16 * 16
  {
  }

  lemma ShiftLeft(y: bv8, bit: nat)
    requires 3 < bit < 8
    ensures Pow(2, bit) > 0 && (y << (8 - bit)) as nat == y as nat % Pow(2, bit) * Pow(2, 8 - bit)
  {
    SmallPowers();
    ShiftLeft1(y);
    ShiftLeft2(y);
    ShiftLeft3(y);
    ShiftLeft4(y);
  }

  lemma OrDisjoint(x: bv8, y: bv8)
    requires x & y == 0
    ensures (x | y) as nat == x as nat + y as nat
  {
  }

  lemma ShiftsDisjoint(x: bv8, y: bv8, bit: nat)
    requires 3 < bit < 8
    ensures (x >> bit) & (y << (8 - bit)) == 0
  {
    assert (x >> 4) & (y << 4) == 0 && (x >> 5) & (y << 3) == 0 && (x >> 6) & (y << 2) == 0 && (x >> 7) & (y << 1) == 0;
  }

  /** The upper part of a digit that straddles two bytes. */
  lemma Straddling(x: bv8, y: bv8, bit: nat)
    requires 3 < bit < 8
    ensures Pow(2, bit) > 0
    ensures ((x >> bit) | (y << (8 - bit))) as nat == x as nat / Pow(2, bit) + y as nat % Pow(2, bit) * Pow(2, 8 - bit)
  {
    ShiftRight(x, bit);
    ShiftLeft(y, bit);
    ShiftsDisjoint(x, y, bit);
    OrDisjoint(x >> bit, y << (8 - bit));
  }

  lemma AddMultiple(a: nat, k: nat)
    ensures (a + 32 * k) % 32 == a % 32
  {
  }

  lemma DivideSum(x: nat, t: nat, p: nat, q: nat)
    requires p > 0 && p * q == 256
    ensures (x + 256 * t) / p == x / p + q * t
  {
    assert (x / p + q * t) * p == x / p * p + p * q * t;
    DivBetween(x + 256 * t, p, x / p + q * t);
  }

  lemma HighPartVanishes(a: nat, y: nat, r: nat, p: nat, q: nat)
    requires p > 0 && p * q == 256
    ensures (a + q * (y + 256 * r)) % 32 == (a + y % p * q) % 32
  {
    var high, low := y / p, y % p;
    Distribute(q, p, high, low, r);
    AddMultiple(a + low * q, 8 * high + 8 * (q * r));
  }

  lemma Distribute(q: nat, p: nat, high: nat, low: nat, r: nat)
    requires p * q == 256
    ensures q * (p * high + low + 256 * r) == low * q + 32 * (8 * high + 8 * (q * r))
  {
    calc {
      q * (p * high + low + 256 * r);
      q * (p * high) + q * low + q * (256 * r);
      { assert q * (p * high) == (p * q) * high; }
      256 * high + low * q + 256 * (q * r);
    }
  }

  lemma WholeVanishes(a: nat, t: nat, q: nat)
    requires q % 32 == 0
    ensures (a + q * t) % 32 == a % 32
  {
    var m := q / 32;
    assert q * t == 32 * (m * t);
    AddMultiple(a, m * t);
  }

  lemma DigitAcross(x: nat, y: nat, r: nat, bit: nat)
    requires x < 256 && y < 256 && bit < 8
    ensures Pow(2, bit) > 0 && Pow(2, 8 - bit) > 0
    ensures (x + 256 * (y + 256 * r)) / Pow(2, bit) % 32 ==
            (x / Pow(2, bit) + if bit > 3 then y % Pow(2, bit) * Pow(2, 8 - bit) else 0) % 32
  {
    SmallPowers();
    DivideSum(x, y + 256 * r, Pow(2, bit), Pow(2, 8 - bit));
    if bit > 3 {
      HighPartVanishes(x / Pow(2, bit), y, r, Pow(2, bit), Pow(2, 8 - bit));
    } else {
      WholeVanishes(x / Pow(2, bit), y + 256 * r, Pow(2, 8 - bit));
    }
  }

  lemma WindowValue(x: bv8, y: bv8, r: nat, bit: nat)
    requires bit < 8
    ensures Pow(2, bit) > 0 && Window(x, y, bit) as nat == (x as nat + 256 * (y as nat + 256 * r)) / Pow(2, bit) % 32
  {
    DigitAcross(x as nat, y as nat, r, bit);
    if bit <= 3 {
      ShiftRight(x, bit);
      LowFive(x >> bit);
    } else {
      Straddling(x, y, bit);
      LowFive((x >> bit) | (y << (8 - bit)));
    }
  }

  lemma SmallPowers()
    ensures Pow(2, 0) == 1 && Pow(2, 1) == 2 && Pow(2, 2) == 4 && Pow(2, 3) == 8
    ensures Pow(2, 4) == 16 && Pow(2, 5) == 32 && Pow(2, 6) == 64 && Pow(2, 7) == 128 && Pow(2, 8) == 256
  {
    assert Pow(2, 4) == 2 * (2 * (2 * (2 * Pow(2, 0))));
    assert Pow(2, 8) == 2 * (2 * (2 * (2 * Pow(2, 4))));
  }

  lemma {:induction false} DropBytes(b: seq<bv8>, c: nat)
    requires c <= |b|
    ensures Pow(256, c) > 0 && LittleEndian(b) / Pow(256, c) == LittleEndian(b[c..])
  {
    PowPositive(256, c);
    if c > 0 {
      DropBytes(b[1..], c - 1);
      assert b[1..][c - 1..] == b[c..];
      PowPositive(256, c - 1);
      DivDiv(LittleEndian(b), 256, Pow(256, c - 1));
    }
  }

  /** Digit `k` of `v` in base 32, counted from the lowest. */
  function Digit(v: nat, k: nat): (d: nat)
    ensures d < 32
  {
    PowPositive(32, k);
    v / Pow(32, k) % 32
  }

  lemma {:induction false} NumeralAt(v: nat, l: nat, j: nat)
    requires j < l
    ensures Numeral(v, l)[j] == NIX_ALPHABET[Digit(v, l - 1 - j)]
  {
    PowPositive(32, l - 1 - j);
    if j < l - 1 {
      NumeralAt(v / 32, l - 1, j);
      DivDiv(v, 32, Pow(32, l - 2 - j));
    }
  }

  /** What the encoding loop computes at position `i`. */
  function WindowAt(b: seq<bv8>, i: nat): bv8
    requires i < EncodedLength(|b|)
  {
    var c, bit := i * 5 / 8, i * 5 % 8;
    Window(b[c], if c + 1 < |b| then b[c + 1] else 0, bit)
  }

  lemma LoopDigit(b: seq<bv8>, i: nat)
    requires i < EncodedLength(|b|)
    ensures WindowAt(b, i) as nat == Digit(LittleEndian(b), i)
  {
    var c, bit := i * 5 / 8, i * 5 % 8;
    var above := b[c + 1..];
    var y: bv8 := if c + 1 < |b| then b[c + 1] else 0;
    var r := if above == [] then 0 else LittleEndian(above[1..]);
    PositionSplits(i, c, bit);
    DropBytes(b, c);
    DivDiv(LittleEndian(b), Pow(256, c), Pow(2, bit));
    assert b[c..][1..] == above;
    WindowValue(b[c], y, r, bit);
  }

  lemma PositionSplits(i: nat, c: nat, bit: nat)
    requires i * 5 == 8 * c + bit
    ensures Pow(256, c) > 0 && Pow(2, bit) > 0 && Pow(32, i) == Pow(256, c) * Pow(2, bit)
  {
    SmallPowers();
    PowOfTwo(5, i);
    PowOfTwo(8, c);
    PowAdd(2, 8 * c, bit);
    PowPositive(256, c);
    PowPositive(2, bit);
  }

  function Letter(v: nat, k: nat): char {
    NIX_ALPHABET[Digit(v, k)]
  }

  method EncodeNixBase32(b: array<bv8>) returns (s: string)
    ensures s == Encoded(b[..])
  {
    var l := (b.Length * 8 + 4) / 5;
    var out := new char[l];
    ghost var v := LittleEndian(b[..]);
    for i := 0 to l
      invariant forall k | 0 <= k < i :: out[k] == Letter(v, k)
    {
      var val := DigitValue(b, i);
      LoopDigit(b[..], i);
      out[i] := NIX_ALPHABET[val];
    }
    ghost var digits := out[..];
    ReverseInPlace(out);
    s := out[..];
    ReversedDigits(digits, s, v, l);
  }

  lemma ReversedDigits(digits: seq<char>, s: string, v: nat, l: nat)
    requires |digits| == |s| == l && forall k | 0 <= k < l :: digits[k] == Letter(v, k)
    requires forall j | 0 <= j < l :: s[j] == digits[l - 1 - j]
    ensures s == Numeral(v, l)
  {
    forall j | 0 <= j < l ensures s[j] == Numeral(v, l)[j] {
      NumeralAt(v, l, j);
    }
  }

  /** The body of the encoding loop. */
  method DigitValue(b: array<bv8>, i: nat) returns (val: bv8)
    requires i < EncodedLength(b.Length)
    ensures val == WindowAt(b[..], i)
  {
    var bNum := i * 5;
    var c := bNum / 8;
    var bit := bNum % 8;
    val := 0;
    if c < b.Length {
      val := b[c] >> bit;
    }
    if bit > 3 && c + 1 < b.Length {
      val := val | (b[c + 1] << (8 - bit));
    }
    ghost var above: bv8 := 0;
    assert (b[c] >> bit) | (above << (8 - bit)) == b[c] >> bit;
    val := val & 0x1f;
  }

  method ReverseInPlace(out: array<char>)
    modifies out
    ensures forall k | 0 <= k < out.Length :: out[k] == old(out[out.Length - 1 - k])
  {
    var i, j := 0, out.Length - 1;
    while i < j
      invariant 0 <= i <= j + 1 && i + j == out.Length - 1
      invariant forall k | 0 <= k < i || j < k < out.Length :: out[k] == old(out[out.Length - 1 - k])
      invariant forall k | i <= k <= j :: out[k] == old(out[k])
    {
      out[i], out[j] := out[j], out[i];
      i, j := i + 1, j - 1;
    }
  }

  // ----- from hexadecimal -----

  predicate IsHexDigit(c: char) {
    '0' <= c <= '9' || 'a' <= c <= 'f' || 'A' <= c <= 'F'
  }

  function HexValue(c: char): bv8
    requires IsHexDigit(c)
  {
    if c <= '9' then (c - '0') as bv8 else if c <= 'F' then (c - 'A') as bv8 + 10 else (c - 'a') as bv8 + 10
  }

  function HexByte(high: char, low: char): bv8
    requires IsHexDigit(high) && IsHexDigit(low)
  {
    HexValue(high) * 16 + HexValue(low)
  }

  predicate IsHex(s: string) {
    |s| % 2 == 0 && forall i | 0 <= i < |s| :: IsHexDigit(s[i])
  }

  /** The bytes that pairs of hexadecimal digits stand for. */
  function HexBytes(s: string): seq<bv8>
    requires IsHex(s)
  {
    seq(|s| / 2, i requires 0 <= i < |s| / 2 => HexByte(s[2 * i], s[2 * i + 1]))
  }

  /** Four bits in hexadecimal, as `hex.EncodeToString` writes them. */
  function HexDigitOf(v: bv8): char
    requires v < 16
  {
    "0123456789abcdef"[v]
  }

  function HexOf(b: seq<bv8>): string {
    if b == [] then "" else HexPair(b[0]) + HexOf(b[1..])
  }

  lemma HexValueOf(d: nat)
    requires d < 16
    ensures IsHexDigit("0123456789abcdef"[d]) && HexValue("0123456789abcdef"[d]) as nat == d
  {
  }

  lemma HexDigitRead(v: bv8)
    requires v < 16
    ensures IsHexDigit(HexDigitOf(v)) && HexValue(HexDigitOf(v)) == v
  {
    HexValueOf(v as nat);
    SameNumber(HexValue(HexDigitOf(v)), v);
  }

  lemma SameNumber(x: bv8, y: bv8)
    requires x as nat == y as nat
    ensures x == y
  {
    ByteRoundTrip(x);
    ByteRoundTrip(y);
  }

  lemma HexByteRead(x: bv8)
    ensures IsHexDigit(HexDigitOf(x / 16)) && IsHexDigit(HexDigitOf(x % 16))
    ensures HexByte(HexDigitOf(x / 16), HexDigitOf(x % 16)) == x
  {
    HexDigitRead(x / 16);
    HexDigitRead(x % 16);
    SplitByte(x, x / 16, x % 16);
  }

  lemma SplitByte(x: bv8, high: bv8, low: bv8)
    requires high == x / 16 && low == x % 16
    ensures high * 16 + low == x
  {
  }

  function HexPair(x: bv8): string {
    [HexDigitOf(x / 16), HexDigitOf(x % 16)]
  }

  lemma PairRead(x: bv8, rest: string)
    requires IsHex(rest)
    ensures IsHex(HexPair(x) + rest) && HexBytes(HexPair(x) + rest) == [x] + HexBytes(rest)
  {
    HexByteRead(x);
    FirstByte(HexDigitOf(x / 16), HexDigitOf(x % 16), rest);
  }

  /** Decoding undoes writing in hexadecimal. */
  lemma {:induction false} HexRoundTrip(b: seq<bv8>)
    ensures IsHex(HexOf(b)) && HexBytes(HexOf(b)) == b
  {
    if b != [] {
      HexRoundTrip(b[1..]);
      PairRead(b[0], HexOf(b[1..]));
    }
  }

  lemma FirstByte(high: char, low: char, rest: string)
    requires IsHexDigit(high) && IsHexDigit(low) && IsHex(rest)
    ensures IsHex([high, low] + rest) && HexBytes([high, low] + rest) == [HexByte(high, low)] + HexBytes(rest)
  {
    var s := [high, low] + rest;
    assert s[2..] == rest;
    TailBytes(s);
    assert HexBytes(s) == [HexBytes(s)[0]] + HexBytes(s)[1..];
  }

  lemma TailBytes(s: string)
    requires IsHex(s) && |s| >= 2
    ensures IsHex(s[2..]) && HexBytes(s)[1..] == HexBytes(s[2..])
  {
    forall i | 0 <= i < |s| / 2 - 1 ensures HexBytes(s)[1..][i] == HexBytes(s[2..])[i] {
      TailByteAt(s, i);
    }
  }

  lemma TailByteAt(s: string, i: nat)
    requires IsHex(s) && 2 * i + 2 < |s|
    ensures IsHex(s[2..]) && HexBytes(s)[i + 1] == HexBytes(s[2..])[i]
  {
    assert s[2..][2 * i] == s[2 * (i + 1)] && s[2..][2 * i + 1] == s[2 * (i + 1) + 1];
  }

  lemma OneMoreByte(hex: string, i: nat)
    requires 2 * i + 2 <= |hex| && IsHex(hex[..2 * i]) && IsHexDigit(hex[2 * i]) && IsHexDigit(hex[2 * i + 1])
    ensures IsHex(hex[..2 * i + 2])
    ensures HexBytes(hex[..2 * i + 2]) == HexBytes(hex[..2 * i]) + [HexByte(hex[2 * i], hex[2 * i + 1])]
  {
  }

  method DecodeHex(hex: string) returns (bytes: Option<seq<bv8>>)
    ensures bytes == if IsHex(hex) then Some(HexBytes(hex)) else None
  {
    if |hex| % 2 != 0 {
      return None;
    }
    var decoded: seq<bv8> := [];
    for i := 0 to |hex| / 2
      invariant IsHex(hex[..2 * i]) && decoded == HexBytes(hex[..2 * i])
    {
      if !IsHexDigit(hex[2 * i]) || !IsHexDigit(hex[2 * i + 1]) {
        return None;
      }
      OneMoreByte(hex, i);
      decoded := decoded + [HexByte(hex[2 * i], hex[2 * i + 1])];
    }
    assert hex[..|hex|] == hex;
    bytes := Some(decoded);
  }

  /** A SHA-256 sum from hexadecimal to base 32; anything else is refused. */
  method HexToNixBase32(hex: string) returns (text: Option<string>)
    ensures text == if IsHex(hex) && |hex| == 64 then Some(Encoded(HexBytes(hex))) else None
  {
    var bytes := DecodeHex(hex);
    if bytes.None? || |bytes.value| != 32 {
      return None;
    }
    var data := new bv8[32](i requires 0 <= i < 32 => bytes.value[i]);
    assert data[..] == bytes.value;
    var encoded := EncodeNixBase32(data);
    text := Some(encoded);
  }

  /** The text of a sum tells the sum. */
  lemma HexRecovered(hex: string, other: string)
    requires IsHex(hex) && IsHex(other) && |hex| == |other| == 64
    requires Encoded(HexBytes(hex)) == Encoded(HexBytes(other))
    ensures HexBytes(hex) == HexBytes(other)
  {
    EncodedInjective(HexBytes(hex), HexBytes(other));
  }

  /** The bytes are read as a number from the last to the first, and its digits written from the highest to the
      lowest. */
  lemma EncodedExamples()
    ensures Encoded([255]) == "7z" && Encoded([0, 1]) == "0080" && Encoded([1, 0]) == "0001"
  {
    SmallNumbers();
    NumeralExamples();
  }

  lemma SomeDigits()
    ensures NIX_ALPHABET[0] == '0' && NIX_ALPHABET[1] == '1' && NIX_ALPHABET[7] == '7' && NIX_ALPHABET[8] == '8'
    ensures NIX_ALPHABET[31] == 'z'
  {
  }

  lemma LastDigit(v: nat, l: nat, front: string, last: char)
    requires l > 0 && Numeral(v / 32, l - 1) == front && NIX_ALPHABET[v % 32] == last
    ensures Numeral(v, l) == front + [last]
  {
  }

  lemma NumeralExamples()
    ensures Numeral(255, 2) == "7z" && Numeral(256, 4) == "0080" && Numeral(1, 4) == "0001"
  {
    SomeDigits();
    LastDigit(0, 1, "", '0');
    LastDigit(0, 2, "0", '0');
    LastDigit(0, 3, "00", '0');
    LastDigit(1, 4, "000", '1');
    LastDigit(7, 1, "", '7');
    LastDigit(255, 2, "7", 'z');
    LastDigit(8, 3, "00", '8');
    LastDigit(256, 4, "008", '0');
  }

  lemma SmallNumbers()
    ensures LittleEndian([255]) == 255 && LittleEndian([0, 1]) == 256 && LittleEndian([1, 0]) == 1
  {
    assert [255 as bv8][1..] == [] && [0 as bv8, 1][1..] == [1] && [1 as bv8, 0][1..] == [0];
    assert LittleEndian([1]) == 1 && LittleEndian([0]) == 0;
  }
}
