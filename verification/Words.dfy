/** Fixed-width integers of the guest and of the emitted code, as bounded integers whose
    wrap-around is written out. An instruction word is
    one of them, and its fields are slices of its binary digits. */
module Words {
  type Word = x: int | 0 <= x < 0x1_0000_0000
  type Half = x: int | 0 <= x < 0x1_0000
  type Byte = x: int | 0 <= x < 0x100

  datatype Option<+T> = None | Some(value: T)

  function Wrap(x: int): Word {
    x % 0x1_0000_0000
  }

  lemma WrapSum(a: int, k: int)
    ensures Wrap(Wrap(a) + k) == Wrap(a + k)
  {
    var q := a / 0x1_0000_0000;
    var s := Wrap(a) + k;
    DivisionIsUnique(a + k, 0x1_0000_0000, q + s / 0x1_0000_0000, s % 0x1_0000_0000);
  }

  /** The two's-complement reading of a word. */
  function ToSigned(x: Word): int {
    if x < 0x8000_0000 then x else x - 0x1_0000_0000
  }

  /** A word stands for exactly one number of its signed range, the one it is the residue of. */
  lemma ToSignedLaw(x: Word)
    ensures -0x8000_0000 <= ToSigned(x) < 0x8000_0000 && Wrap(ToSigned(x)) == x
  {
    if x >= 0x8000_0000 {
      DivisionIsUnique(x - 0x1_0000_0000, 0x1_0000_0000, -1, x);
    }
  }

  lemma SignedOf(a: int)
    requires -0x8000_0000 <= a < 0x8000_0000
    ensures ToSigned(Wrap(a)) == a
  {
    if a >= 0 {
      DivisionIsUnique(a, 0x1_0000_0000, 0, a);
    } else {
      DivisionIsUnique(a, 0x1_0000_0000, -1, a + 0x1_0000_0000);
    }
  }

  // ----- powers of two and bitwise operators -----

  function Pow2(n: nat): (p: nat)
    ensures p >= 1
  {
    if n == 0 then 1 else 2 * Pow2(n - 1)
  }

  lemma PowersOfTwo()
    ensures Pow2(7) == 0x80
    ensures Pow2(8) == 0x100
    ensures Pow2(10) == 0x400
    ensures Pow2(11) == 0x800
    ensures Pow2(12) == 0x1000
    ensures Pow2(13) == 0x2000
    ensures Pow2(15) == 0x8000
    ensures Pow2(19) == 0x8_0000
    ensures Pow2(20) == 0x10_0000
    ensures Pow2(21) == 0x20_0000
    ensures Pow2(25) == 0x200_0000
    ensures Pow2(31) == 0x8000_0000
    ensures Pow2(32) == 0x1_0000_0000
  {
    assert Pow2(5) == 0x20;
    assert Pow2(10) == 0x400;
    assert Pow2(15) == 0x8000;
    assert Pow2(20) == 0x10_0000;
    assert Pow2(25) == 0x200_0000;
  }

  datatype BitOperator = BitAnd | BitOr | BitXor

  function BitOf(op: BitOperator, x: nat, y: nat): nat
    requires x < 2 && y < 2
  {
    match op
    case BitAnd => x * y
    case BitOr => if x + y == 0 then 0 else 1
    case BitXor => if x == y then 0 else 1
  }

  /** Applies `op` to each of the low `width` bits, least significant first. */
  function Bitwise(op: BitOperator, x: nat, y: nat, width: nat): (r: nat)
    ensures r < Pow2(width)
    decreases width, x, y
  {
    if width == 0 then 0
    else BitOf(op, x % 2, y % 2) + 2 * Bitwise(op, x / 2, y / 2, width - 1)
  }

  function BitOp(op: BitOperator, x: Word, y: Word): Word {
    PowersOfTwo();
    Bitwise(op, x, y, 32)
  }

  /** Where both numbers have a 1, XOR loses it and a carry keeps it. */
  lemma {:induction false} XorSum(x: nat, y: nat, n: nat)
    requires x < Pow2(n) && y < Pow2(n)
    ensures Bitwise(BitXor, x, y, n) + 2 * Bitwise(BitAnd, x, y, n) == x + y
    decreases n
  {
    if n > 0 {
      XorSum(x / 2, y / 2, n - 1);
      OneBitSum(x % 2, y % 2);
    }
  }

  lemma {:induction false} OrSum(x: nat, y: nat, n: nat)
    requires x < Pow2(n) && y < Pow2(n)
    ensures Bitwise(BitOr, x, y, n) + Bitwise(BitAnd, x, y, n) == x + y
    decreases n
  {
    if n > 0 {
      OrSum(x / 2, y / 2, n - 1);
      OneBitSum(x % 2, y % 2);
    }
  }

  lemma OneBitSum(x: nat, y: nat)
    requires x < 2 && y < 2
    ensures BitOf(BitXor, x, y) + 2 * BitOf(BitAnd, x, y) == x + y
    ensures BitOf(BitOr, x, y) + BitOf(BitAnd, x, y) == x + y
  {
  }

  /** The k-th binary digit. */
  function Digit(x: nat, k: nat): nat {
    x / Pow2(k) % 2
  }

  lemma DigitStep(x: nat, k: nat)
    requires k > 0
    ensures Digit(x, k) == Digit(x / 2, k - 1)
  {
    DivDiv(x, 2, Pow2(k - 1));
  }

  lemma DigitZero(x: nat)
    ensures Digit(x, 0) == x % 2
  {
    assert Pow2(0) == 1;
  }

  lemma BitwiseParts(op: BitOperator, x: nat, y: nat, n: nat)
    requires n > 0
    ensures Bitwise(op, x, y, n) % 2 == BitOf(op, x % 2, y % 2)
    ensures Bitwise(op, x, y, n) / 2 == Bitwise(op, x / 2, y / 2, n - 1)
  {
    var low: nat := BitOf(op, x % 2, y % 2);
    assert low < 2;
    DivisionIsUnique(Bitwise(op, x, y, n), 2, Bitwise(op, x / 2, y / 2, n - 1), low);
  }

  /** Bitwise operators work digit by digit. */
  lemma {:induction false} BitwiseDigit(op: BitOperator, x: nat, y: nat, n: nat, k: nat)
    requires k < n
    ensures Digit(Bitwise(op, x, y, n), k) == BitOf(op, Digit(x, k), Digit(y, k))
    decreases k
  {
    hide Digit, BitOf, Bitwise;
    BitwiseParts(op, x, y, n);
    if k == 0 {
      DigitZero(x);
      DigitZero(y);
      DigitZero(Bitwise(op, x, y, n));
    } else {
      DigitStep(x, k);
      DigitStep(y, k);
      DigitStep(Bitwise(op, x, y, n), k);
      BitwiseDigit(op, x / 2, y / 2, n - 1, k - 1);
    }
  }

  lemma {:induction false} AndWithOnes(x: nat, n: nat)
    requires x < Pow2(n)
    ensures Bitwise(BitAnd, x, Pow2(n) - 1, n) == x
  {
    if n > 0 {
      AndWithOnes(x / 2, n - 1);
      assert (Pow2(n) - 1) / 2 == Pow2(n - 1) - 1;
    }
  }

  /** Masking with ~1 clears the least significant bit and nothing else. */
  lemma AndClearsLowBit(x: Word)
    ensures BitOp(BitAnd, x, 0xFFFF_FFFE) == x - x % 2
  {
    PowersOfTwo();
    assert Pow2(31) == 0x8000_0000;
    AndWithOnes(x / 2, 31);
    assert Bitwise(BitAnd, x, 0xFFFF_FFFE, 32)
        == BitOf(BitAnd, x % 2, 0) + 2 * Bitwise(BitAnd, x / 2, 0x7FFF_FFFF, 31);
  }

  lemma {:induction false} OrWithOnes(x: nat, n: nat)
    requires x < Pow2(n)
    ensures Bitwise(BitOr, x, Pow2(n) - 1, n) == Pow2(n) - 1
  {
    if n > 0 {
      OrWithOnes(x / 2, n - 1);
      assert (Pow2(n) - 1) / 2 == Pow2(n - 1) - 1;
    }
  }

  lemma {:induction false} Pow2Monotone(k: nat, n: nat)
    requires k <= n
    ensures Pow2(k) <= Pow2(n)
  {
    if k < n {
      Pow2Monotone(k, n - 1);
    }
  }

  lemma OrEven(x: nat, high: nat, n: nat)
    requires n > 0
    ensures Bitwise(BitOr, x, 2 * high, n) == x % 2 + 2 * Bitwise(BitOr, x / 2, high, n - 1)
  {
    assert (2 * high) / 2 == high && (2 * high) % 2 == 0;
  }

  /** OR with the ones from the k-th bit up keeps the bits below and sets the others. */
  lemma {:induction false} OrWithHighOnes(x: nat, k: nat, n: nat, high: nat)
    requires x < Pow2(n) && k <= n && high == Pow2(n) - Pow2(k)
    ensures Bitwise(BitOr, x, high, n) == Bits(x, 0, k) + high
    decreases n
  {
    if k == 0 {
      OrWithOnes(x, n);
    } else {
      Pow2Monotone(k - 1, n - 1);
      var half := Pow2(n - 1) - Pow2(k - 1);
      assert high == 2 * half;
      OrWithHighOnes(x / 2, k - 1, n - 1, half);
      OrEven(x, half, n);
    }
  }

  // ----- shifts -----

  // One place at a time.

  function ShiftLeft(x: Word, n: nat): Word
    decreases n, x
  {
    if n == 0 then x else ShiftLeft(Wrap(2 * x), n - 1)
  }

  function ShiftRightLogical(x: Word, n: nat): Word
    decreases n, x
  {
    if n == 0 then x else ShiftRightLogical(x / 2, n - 1)
  }

  function ShiftRightArithmetic(x: Word, n: nat): Word
    decreases n, x
  {
    if n == 0 then x
    else ShiftRightArithmetic(if x < 0x8000_0000 then x / 2 else x / 2 + 0x8000_0000, n - 1)
  }

  /** Shifts multiply and divide by powers of two; the arithmetic one divides the signed number,
      rounding towards minus infinity. */
  lemma {:induction false} ShiftLeftMeaning(x: Word, n: nat)
    ensures ShiftLeft(x, n) == Wrap(x * Pow2(n))
    decreases n
  {
    if n > 0 {
      ShiftLeftMeaning(Wrap(2 * x), n - 1);
      DoubledProduct(x, Pow2(n - 1));
    }
  }

  lemma DoubledProduct(x: Word, p: nat)
    ensures Wrap(Wrap(2 * x) * p) == Wrap(x * (2 * p))
  {
    var q, r := (2 * x) / 0x1_0000_0000, Wrap(2 * x);
    var v := r * p;
    assert x * (2 * p) == (2 * x) * p;
    SumTimes(0x1_0000_0000, q, r, p);
    DivisionIsUnique((2 * x) * p, 0x1_0000_0000, q * p + v / 0x1_0000_0000, v % 0x1_0000_0000);
  }

  lemma SumTimes(d: int, q: int, r: int, p: int)
    ensures (d * q + r) * p == d * (q * p) + r * p
  {
  }

  lemma {:induction false} ShiftRightMeaning(x: Word, n: nat)
    ensures ShiftRightLogical(x, n) == x / Pow2(n)
    decreases n
  {
    if n > 0 {
      ShiftRightMeaning(x / 2, n - 1);
      DivDiv(x, 2, Pow2(n - 1));
    }
  }

  lemma {:induction false} ShiftRightSignedMeaning(x: Word, n: nat)
    ensures ToSigned(ShiftRightArithmetic(x, n)) == ToSigned(x) / Pow2(n)
    decreases n
  {
    if n > 0 {
      var half := if x < 0x8000_0000 then x / 2 else x / 2 + 0x8000_0000;
      ShiftRightSignedMeaning(half, n - 1);
      assert ToSigned(half) == ToSigned(x) / 2;
      DivDiv(ToSigned(x), 2, Pow2(n - 1));
    }
  }

  lemma MulAtLeast(d: int, e: int)
    requires d >= 0 && e >= 1
    ensures d * e >= d
  {
    assert d * (e - 1) >= 0;
  }

  // ----- extension and little-endian bytes -----

  function SignExtend8(x: Byte): Word {
    if x < 0x80 then x else x + 0xFFFF_FF00
  }

  function SignExtend16(x: Half): Word {
    if x < 0x8000 then x else x + 0xFFFF_0000
  }

  /** Sign extension gives the number of the narrow signed range with the same low bits. */
  lemma SignExtendLaw(b: Byte, h: Half)
    ensures -0x80 <= ToSigned(SignExtend8(b)) < 0x80 && (ToSigned(SignExtend8(b)) - b) % 0x100 == 0
    ensures -0x8000 <= ToSigned(SignExtend16(h)) < 0x8000 && (ToSigned(SignExtend16(h)) - h) % 0x1_0000 == 0
  {
  }

  function Pow256(n: nat): (p: nat)
    ensures p >= 1
  {
    if n == 0 then 1 else 256 * Pow256(n - 1)
  }

  /** The number whose little-endian digits are `s`. */
  function Join(s: seq<Byte>): (v: nat)
    ensures v < Pow256(|s|)
  {
    if s == [] then 0 else s[0] + 256 * Join(s[1..])
  }

  /** The `n` low little-endian digits of `v`. */
  function Split(v: nat, n: nat): (s: seq<Byte>)
    ensures |s| == n
  {
    if n == 0 then [] else [v % 256] + Split(v / 256, n - 1)
  }

  lemma {:induction false} JoinSplit(v: nat, n: nat)
    ensures Join(Split(v, n)) == v % Pow256(n)
  {
    if n > 0 {
      JoinSplit(v / 256, n - 1);
      assert Split(v, n)[1..] == Split(v / 256, n - 1);
      ModSplit(v, 256, Pow256(n - 1));
    }
  }

  /** `Split` lists the digits to base 256, least significant first. */
  lemma {:induction false} SplitDigits(v: nat, n: nat, k: nat)
    requires k < n
    ensures Split(v, n)[k] == v / Pow256(k) % 256
    decreases k
  {
    if k > 0 {
      SplitDigits(v / 256, n - 1, k - 1);
      DivDiv(v, 256, Pow256(k - 1));
    }
  }

  /** `Join` is the number with those digits. */
  lemma {:induction false} JoinDigits(s: seq<Byte>, k: nat)
    requires k < |s|
    ensures Join(s) / Pow256(k) % 256 == s[k]
    decreases k
  {
    var rest := Join(s[1..]);
    DivisionIsUnique(Join(s), 256, rest, s[0]);
    if k > 0 {
      JoinDigits(s[1..], k - 1);
      DivDiv(Join(s), 256, Pow256(k - 1));
    }
  }

  lemma DivisionIsUnique(v: int, d: int, k: int, r: int)
    requires v == d * k + r && 0 <= r < d
    ensures v % d == r && v / d == k
  {
    var k' := v / d;
    assert v == d * k' + v % d;
    assert d * (k - k') == v % d - r;
    if k > k' {
      MulAtLeast(d, k - k');
    } else if k < k' {
      MulAtLeast(d, k' - k);
    }
  }

  // ----- slices of the binary digits -----

  /** `(x >> lo) & (2^len - 1)`: the `len` binary digits of `x` from position `lo` up. */
  function Bits(x: int, lo: nat, len: nat): (r: nat)
    ensures r < Pow2(len)
    decreases lo, len, x
  {
    if lo > 0 then Bits(x / 2, lo - 1, len)
    else if len == 0 then 0
    else x % 2 + 2 * Bits(x / 2, 0, len - 1)
  }

  lemma {:induction false} BitsOfQuotient(x: int, lo: nat, len: nat)
    ensures Bits(x, lo, len) == Bits(x / Pow2(lo), 0, len)
    decreases lo
  {
    if lo > 0 {
      BitsOfQuotient(x / 2, lo - 1, len);
      DivDiv(x, 2, Pow2(lo - 1));
    }
  }

  /** A slice is its low part and its high part; `p` is 2^m. */
  lemma {:induction false} BitsJoin(x: int, lo: nat, m: nat, p: nat, n: nat)
    requires p == Pow2(m)
    ensures Bits(x, lo, m + n) == Bits(x, lo, m) + p * Bits(x, lo + m, n)
    decreases lo, m
  {
    if lo > 0 {
      BitsJoin(x / 2, lo - 1, m, p, n);
    } else if m > 0 {
      BitsJoin(x / 2, 0, m - 1, Pow2(m - 1), n);
      Regroup(2, Pow2(m - 1), Bits(x, m, n), Bits(x / 2, 0, m - 1), x % 2);
    }
  }

  /** The low digits are the residue; `p` is 2^len. */
  lemma {:induction false} LowBits(x: int, len: nat, p: nat)
    requires p == Pow2(len)
    ensures Bits(x, 0, len) == x % p
    decreases len
  {
    if len > 0 {
      LowBits(x / 2, len - 1, Pow2(len - 1));
      ModSplit(x, 2, Pow2(len - 1));
    }
  }

  /** The slice of a number given as low part, middle part and rest; `d` is 2^lo and `p` is 2^len. */
  lemma BitsOf(x: int, lo: nat, d: nat, low: nat, len: nat, p: nat, mid: nat, rest: int)
    requires d == Pow2(lo) && p == Pow2(len) && low < d && mid < p
    requires x == low + d * (mid + p * rest)
    ensures Bits(x, lo, len) == mid
  {
    BitsOfQuotient(x, lo, len);
    DivisionIsUnique(x, d, mid + p * rest, low);
    LowBits(x / d, len, p);
    DivisionIsUnique(mid + p * rest, p, rest, mid);
  }

  lemma Regroup(d: int, m: int, r: int, a: int, c: int)
    ensures d * (m * r + a) + c == (d * m) * r + (d * a + c)
  {
  }

  lemma DigitsBelow(d: nat, m: nat, a: nat, c: nat)
    requires a < m && c < d
    ensures d * a + c < d * m
  {
    MulMonotone(d, a, m - 1);
    assert d * (m - 1) == d * m - d;
  }

  lemma DivDiv(x: int, d: nat, m: nat)
    requires d >= 1 && m >= 1 && d * m >= 1
    ensures x / (d * m) == (x / d) / m
  {
    var q, c := x / d, x % d;
    var r, a := q / m, q % m;
    Regroup(d, m, r, a, c);
    DigitsBelow(d, m, a, c);
    DivisionIsUnique(x, d * m, r, d * a + c);
  }

  lemma ModSplit(q: int, m: nat, n: nat)
    requires m >= 1 && n >= 1 && m * n >= 1
    ensures q % (m * n) == q % m + m * ((q / m) % n)
  {
    var r, a := q / m, q % m;
    var k, b := r / n, r % n;
    Regroup(m, n, k, b, a);
    DigitsBelow(m, n, b, a);
    DivisionIsUnique(q, m * n, k, m * b + a);
  }

  lemma MulMonotone(d: nat, x: int, y: int)
    requires x <= y
    ensures d * x <= d * y
  {
    assert d * (y - x) >= 0;
  }

  /** Setting all bits from the k-th up, where p is 2^k. */
  lemma OrFillsUpperBits(x: Word, k: nat, p: nat, high: Word)
    requires k <= 32 && p == Pow2(k) && high == 0x1_0000_0000 - p
    ensures BitOp(BitOr, x, high) == x % p + high
  {
    PowersOfTwo();
    OrWithHighOnes(x, k, 32, high);
    LowBits(x, k, p);
  }

  lemma OrFrom12(x: Word)
    requires x < 0x1000
    ensures BitOp(BitOr, x, 0xFFFF_F000) == x + 0xFFFF_F000
  {
    PowersOfTwo();
    OrFillsUpperBits(x, 12, 0x1000, 0xFFFF_F000);
  }

  lemma OrFrom13(x: Word)
    requires x < 0x2000
    ensures BitOp(BitOr, x, 0xFFFF_E000) == x + 0xFFFF_E000
  {
    PowersOfTwo();
    OrFillsUpperBits(x, 13, 0x2000, 0xFFFF_E000);
  }

  lemma OrFrom20(x: Word, lo: nat, s: nat)
    requires x == lo + 0x10_0000 * s && lo < 0x10_0000
    ensures BitOp(BitOr, x, 0xFFF0_0000) == lo + 0xFFF0_0000
  {
    PowersOfTwo();
    OrFillsUpperBits(x, 20, 0x10_0000, 0xFFF0_0000);
  }
}
