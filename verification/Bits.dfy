/**
  Machine words as natural numbers: powers of two, the bitwise operators that
  the toolchain applies to unsigned words, and the little-endian byte order of
  its output. A `k`-bit word is a natural number below `Pow2(k)`.
 */
module Bits {

  type Byte = b: int | 0 <= b < 256

  const WORD_64 := 0x1_0000_0000_0000_0000

  function Pow2(k: nat): (p: nat)
    ensures p > 0
  {
    if k == 0 then 1 else 2 * Pow2(k - 1)
  }

  predicate IsPowerOfTwo(n: nat) {
    n == 1 || (n > 1 && n % 2 == 0 && IsPowerOfTwo(n / 2))
  }

  /** The value of bit `k` of a word. */
  function Bit(a: nat, k: nat): (b: nat)
    ensures b < 2
  {
    if k == 0 then a % 2 else Bit(a / 2, k - 1)
  }

  function And(a: nat, b: nat): nat {
    if a == 0 || b == 0 then 0
    else (if a % 2 == 1 && b % 2 == 1 then 1 else 0) + 2 * And(a / 2, b / 2)
  }

  function Or(a: nat, b: nat): nat {
    if a == 0 then b else if b == 0 then a
    else (if a % 2 == 1 || b % 2 == 1 then 1 else 0) + 2 * Or(a / 2, b / 2)
  }

  function Xor(a: nat, b: nat): nat {
    if a == 0 then b else if b == 0 then a
    else (if a % 2 == b % 2 then 0 else 1) + 2 * Xor(a / 2, b / 2)
  }

  /** `2^64 - n` wrapped to a word, masked by `align - 1`: the padding that
      brings an offset to the next multiple of a power of two. */
  function Padding(size: nat, align: nat): nat
    requires align > 0
  {
    And((WORD_64 - size % WORD_64) % WORD_64, align - 1)
  }

  lemma {:induction false} Pow2Sum(i: nat, j: nat)
    ensures Pow2(i + j) == Pow2(i) * Pow2(j)
  {
    if i == 0 {
    } else {
      Pow2Sum(i - 1, j);
      calc {
        Pow2(i + j);
        2 * Pow2(i - 1 + j);
        2 * (Pow2(i - 1) * Pow2(j));
        (2 * Pow2(i - 1)) * Pow2(j);
      }
    }
  }

  lemma {:induction false} Pow2Monotone(i: nat, j: nat)
    requires i <= j
    ensures Pow2(i) <= Pow2(j)
  {
    if i < j {
      Pow2Monotone(i, j - 1);
    }
  }

  /** A power of two that is below 2^64 is Pow2 of an exponent below 64. */
  lemma {:induction false} PowerOfTwoExponent(n: nat) returns (k: nat)
    requires IsPowerOfTwo(n)
    ensures n == Pow2(k)
  {
    if n == 1 {
      k := 0;
    } else {
      var h := PowerOfTwoExponent(n / 2);
      k := h + 1;
    }
  }

  lemma {:induction false} Pow2IsPowerOfTwo(k: nat)
    ensures IsPowerOfTwo(Pow2(k))
  {
    if k > 0 {
      Pow2IsPowerOfTwo(k - 1);
    }
  }

  lemma DoubleModulus(a: nat, m: nat)
    requires m > 0
    ensures a % (2 * m) == a % 2 + 2 * ((a / 2) % m)
  {
    var q, r := (a / 2) / m, (a / 2) % m;
    assert a == 2 * (q * m + r) + a % 2;
    assert a == (2 * m) * q + (2 * r + a % 2) by {
      assert 2 * (q * m) == (2 * m) * q;
    }
    DivModUnique(a, 2 * m, q, 2 * r + a % 2);
  }

  /** A nonzero multiple of `m` is at least `m` away from zero. */
  lemma MultipleGap(m: int, c: int)
    requires m > 0
    ensures c == 0 || m * c >= m || m * c <= -m
  {
    if c >= 1 {
      assert m * c == m + m * (c - 1);
    } else if c <= -1 {
      assert m * c == -m + m * (c + 1);
    }
  }

  /** Division with remainder has one answer. */
  lemma DivModUnique(a: int, m: int, q: int, r: int)
    requires 0 <= r < m && a == m * q + r
    ensures a / m == q && a % m == r
  {
    assert m * (a / m - q) == m * (a / m) - m * q;
    assert a == m * (a / m) + a % m;
    MultipleGap(m, a / m - q);
  }

  /** Masking with `2^k - 1` is the remainder modulo `2^k`. */
  lemma {:induction false} AndMask(a: nat, k: nat)
    ensures And(a, Pow2(k) - 1) == a % Pow2(k)
  {
    if k == 0 {
    } else if a == 0 {
    } else {
      AndMask(a / 2, k - 1);
      DoubleModulus(a, Pow2(k - 1));
      assert (Pow2(k) - 1) % 2 == 1 && (Pow2(k) - 1) / 2 == Pow2(k - 1) - 1;
    }
  }

  lemma AndHalves(a: nat, b: nat)
    ensures And(a, b) % 2 == (if a % 2 == 1 && b % 2 == 1 then 1 else 0)
    ensures And(a, b) / 2 == And(a / 2, b / 2)
  {
    if a == 0 || b == 0 {
    } else {
      assert And(a, b) == (if a % 2 == 1 && b % 2 == 1 then 1 else 0) + 2 * And(a / 2, b / 2);
    }
  }

  lemma OrHalves(a: nat, b: nat)
    ensures Or(a, b) % 2 == (if a % 2 == 1 || b % 2 == 1 then 1 else 0)
    ensures Or(a, b) / 2 == Or(a / 2, b / 2)
  {
    if a == 0 {
    } else if b == 0 {
    } else {
      assert Or(a, b) == (if a % 2 == 1 || b % 2 == 1 then 1 else 0) + 2 * Or(a / 2, b / 2);
    }
  }

  lemma XorHalves(a: nat, b: nat)
    ensures Xor(a, b) % 2 == (if a % 2 == b % 2 then 0 else 1)
    ensures Xor(a, b) / 2 == Xor(a / 2, b / 2)
  {
    if a == 0 {
    } else if b == 0 {
    } else {
      assert Xor(a, b) == (if a % 2 == b % 2 then 0 else 1) + 2 * Xor(a / 2, b / 2);
    }
  }

  /** Shifts and the low bits of a word, bit by bit. */
  function Up(a: nat, k: nat): nat {
    if k == 0 then a else 2 * Up(a, k - 1)
  }

  function High(a: nat, k: nat): nat {
    if k == 0 then a else High(a / 2, k - 1)
  }

  function Low(a: nat, k: nat): nat {
    if k == 0 then 0 else a % 2 + 2 * Low(a / 2, k - 1)
  }

  /** A word is its high part, shifted back, plus its low part. */
  lemma {:induction false} SplitWord(a: nat, k: nat)
    ensures a == Up(High(a, k), k) + Low(a, k)
    ensures Low(a, k) < Pow2(k)
  {
    if k > 0 {
      SplitWord(a / 2, k - 1);
    }
  }

  lemma {:induction false} UpIsProduct(a: nat, k: nat)
    ensures Up(a, k) == a * Pow2(k)
  {
    if k > 0 {
      UpIsProduct(a, k - 1);
      assert a * (2 * Pow2(k - 1)) == 2 * (a * Pow2(k - 1));
    }
  }

  lemma {:induction false} UpSum(a: nat, b: nat, k: nat)
    ensures Up(a + b, k) == Up(a, k) + Up(b, k)
  {
    if k > 0 {
      UpSum(a, b, k - 1);
    }
  }

  lemma {:induction false} UpTwice(a: nat, j: nat, k: nat)
    ensures Up(Up(a, j), k) == Up(a, j + k)
  {
    if k > 0 {
      UpTwice(a, j, k - 1);
    }
  }

  lemma {:induction false} UpOne(k: nat)
    ensures Up(1, k) == Pow2(k) && Up(0, k) == 0
  {
    if k > 0 {
      UpOne(k - 1);
    }
  }

  /** Shifting keeps the order. */
  lemma {:induction false} UpOrder(a: nat, b: nat, k: nat)
    ensures Up(a, k) < Up(b, k) <==> a < b
    ensures Up(a, k) >= a
  {
    if k > 0 {
      UpOrder(a, b, k - 1);
    }
  }

  lemma {:induction false} UpGrows(a: nat, j: nat, k: nat)
    requires j <= k
    ensures Up(a, j) <= Up(a, k)
  {
    if j < k {
      UpGrows(a, j, k - 1);
    }
  }

  /** The split of a word into a shifted part and a remainder is unique. */
  lemma {:induction false} SplitUnique(q: nat, r: nat, k: nat)
    requires r < Pow2(k)
    ensures High(Up(q, k) + r, k) == q && Low(Up(q, k) + r, k) == r
  {
    if k > 0 {
      SplitUnique(q, r / 2, k - 1);
      assert (Up(q, k) + r) / 2 == Up(q, k - 1) + r / 2;
      assert (Up(q, k) + r) % 2 == r % 2;
    }
  }

  /** A word of `k + n` bits has a high part of `n` bits. */
  lemma {:induction false} HighBelow(a: nat, k: nat, n: nat)
    requires a < Pow2(k + n)
    ensures High(a, k) < Pow2(n)
  {
    if k > 0 {
      HighBelow(a / 2, k - 1, n);
    }
  }

  /** Masking with `2^k - 1` keeps the low bits. */
  lemma {:induction false} AndLowBits(a: nat, k: nat)
    ensures And(a, Pow2(k) - 1) == Low(a, k)
  {
    if k > 0 {
      AndLowBits(a / 2, k - 1);
      AndHalves(a, Pow2(k) - 1);
    }
  }

  /** Masking with a shifted mask looks at the high part only. */
  lemma {:induction false} AndShifted(a: nat, mask: nat, k: nat)
    ensures And(a, Up(mask, k)) == Up(And(High(a, k), mask), k)
  {
    if k > 0 {
      AndShifted(a / 2, mask, k - 1);
      AndHalves(a, Up(mask, k));
    }
  }

  /** Or-ing words without a common bit adds them. */
  lemma {:induction false} OrDisjoint(a: nat, b: nat)
    requires And(a, b) == 0
    ensures Or(a, b) == a + b
  {
    if a == 0 || b == 0 {
    } else {
      OrDisjoint(a / 2, b / 2);
    }
  }

  lemma {:induction false} AndCommutes(a: nat, b: nat)
    ensures And(a, b) == And(b, a)
  {
    if a > 0 && b > 0 {
      AndCommutes(a / 2, b / 2);
    }
  }

  /** A word below `2^k` has no bit in common with a multiple of `2^k`. */
  lemma {:induction false} AndLowHigh(a: nat, q: nat, k: nat)
    requires a < Pow2(k)
    ensures And(a, Pow2(k) * q) == 0
  {
    if k == 0 || a == 0 {
    } else {
      var b := Pow2(k) * q;
      assert b == 2 * (Pow2(k - 1) * q);
      AndLowHigh(a / 2, q, k - 1);
    }
  }

  /** If `neg` completes `size` to a multiple of `align`, so does its remainder. */
  lemma RemainderCompletes(size: nat, neg: nat, align: nat, q: nat)
    requires align > 0 && size + neg == align * q
    ensures (size + neg % align) % align == 0
  {
    var c := q - neg / align;
    assert align * c == align * q - align * (neg / align);
    assert neg == align * (neg / align) + neg % align;
    DivModUnique(size + neg % align, align, c, 0);
  }

  lemma WordComplement(size: nat) returns (q: nat)
    ensures size + (WORD_64 - size % WORD_64) % WORD_64 == WORD_64 * q
  {
    q := if size % WORD_64 == 0 then size / WORD_64 else size / WORD_64 + 1;
  }

  lemma MulAssociative(a: int, b: int, c: int)
    ensures (a * b) * c == a * (b * c)
  {
  }

  /** `Padding` reaches a multiple of `align` in less than `align` steps. */
  lemma PaddingAligns(size: nat, align: nat)
    requires IsPowerOfTwo(align) && align <= WORD_64
    ensures Padding(size, align) < align
    ensures (size + Padding(size, align)) % align == 0
  {
    var k := PowerOfTwoExponent(align);
    var neg := (WORD_64 - size % WORD_64) % WORD_64;
    AndMask(neg, k);
    var d := DividesWord(k);
    var q := WordComplement(size);
    MulAssociative(align, d, q);
    RemainderCompletes(size, neg, align, d * q);
  }

  /** Two different multiples of `m` are at least `m` apart. */
  lemma MultiplesApart(a: int, b: int, m: int)
    requires m > 0 && a % m == 0 && b % m == 0
    ensures a == b || a - b >= m || b - a >= m
  {
    assert m * (a / m - b / m) == m * (a / m) - m * (b / m);
    assert a == m * (a / m) && b == m * (b / m);
    MultipleGap(m, a / m - b / m);
  }

  /** No shorter padding reaches a multiple of `align`. */
  lemma PaddingIsLeast(size: nat, align: nat, p: nat)
    requires IsPowerOfTwo(align) && align <= WORD_64
    requires (size + p) % align == 0
    ensures Padding(size, align) <= p
  {
    PaddingAligns(size, align);
    MultiplesApart(size + Padding(size, align), size + p, align);
  }

  lemma Pow2At32()
    ensures Pow2(32) == 0x1_0000_0000
  {
    assert Pow2(4) == 16;
    Pow2Sum(4, 4);
    Pow2Sum(8, 8);
    Pow2Sum(16, 16);
  }

  lemma Pow2At64()
    ensures Pow2(64) == WORD_64
  {
    hide Pow2;
    Pow2At32();
    Pow2Sum(32, 32);
  }

  lemma DividesWord(k: nat) returns (d: nat)
    requires Pow2(k) <= WORD_64
    ensures Pow2(k) * d == WORD_64
  {
    Pow2At64();
    if k > 64 {
      Pow2Monotone(65, k);
    }
    d := Pow2(64 - k);
    Pow2Sum(k, 64 - k);
  }

  /** Two's complement: the unsigned word of a signed value, and back. */
  function ToWord(value: int, bits: nat): (w: nat)
    ensures w < Pow2(bits)
  {
    value % Pow2(bits)
  }

  function FromWord(word: nat, bits: nat): int {
    if bits > 0 && word >= Pow2(bits - 1) then word - Pow2(bits) else word
  }

  /** Sign extension inverts truncation exactly on the signed range. */
  lemma SignExtendTruncate(value: int, bits: nat)
    requires bits > 0
    ensures -(Pow2(bits - 1) as int) <= value < Pow2(bits - 1)
            <==> FromWord(ToWord(value, bits), bits) == value
  {
    var m := Pow2(bits);
    assert m == 2 * Pow2(bits - 1);
    if 0 <= value < m {
      DivModUnique(value, m, 0, value);
    } else if -m <= value < 0 {
      DivModUnique(value, m, -1, value + m);
    }
  }

  function LittleEndian(word: nat, count: nat): (bytes: seq<Byte>)
    ensures |bytes| == count
  {
    if count == 0 then [] else [word % 256] + LittleEndian(word / 256, count - 1)
  }

  function FromLittleEndian(bytes: seq<Byte>): nat {
    if bytes == [] then 0 else bytes[0] + 256 * FromLittleEndian(bytes[1..])
  }

  lemma {:induction false} LittleEndianRoundTrip(word: nat, count: nat)
    requires word < Pow2(8 * count)
    ensures FromLittleEndian(LittleEndian(word, count)) == word
  {
    if count == 0 {
    } else {
      Pow2Sum(8, 8 * (count - 1));
      assert Pow2(8) == 256;
      LittleEndianRoundTrip(word / 256, count - 1);
      assert LittleEndian(word, count)[1..] == LittleEndian(word / 256, count - 1);
    }
  }
}
