/** Machine words: moduli, two's-complement wrapping, bitwise operators on
    bit patterns, truncating division, and little-endian byte images. */
module Words {

  const TWO_31 := 0x8000_0000
  const TWO_32 := 0x1_0000_0000
  const TWO_63 := 0x8000_0000_0000_0000
  const TWO_64 := 0x1_0000_0000_0000_0000
  const TWO_127 := 0x8000_0000_0000_0000_0000_0000_0000_0000
  const TWO_128 := 0x1_0000_0000_0000_0000_0000_0000_0000_0000

  // ---------- Powers of two ----------

  function Pow2(n: nat): (p: int)
    ensures p > 0
  {
    if n == 0 then 1 else 2 * Pow2(n - 1)
  }

  lemma Pow2Values()
    ensures Pow2(0) == 1 && Pow2(3) == 8 && Pow2(7) == 0x80 && Pow2(8) == 0x100
    ensures Pow2(15) == 0x8000 && Pow2(16) == 0x1_0000
    ensures Pow2(31) == TWO_31 && Pow2(32) == TWO_32
    ensures Pow2(63) == TWO_63 && Pow2(64) == TWO_64
  {
    assert Pow2(16) == 0x1_0000;
    Pow2Sum(16, 15);
    Pow2Sum(16, 16);
    Pow2Sum(32, 31);
    Pow2Sum(32, 32);
    assert Pow2(15) == 0x8000;
  }

  lemma {:induction false} Pow2Sum(a: nat, b: nat)
    ensures Pow2(a + b) == Pow2(a) * Pow2(b)
  {
    if a != 0 {
      Pow2Sum(a - 1, b);
      assert Pow2(a + b) == 2 * Pow2(a - 1 + b);
    }
  }

  // ---------- Wrapping ----------

  /** The representative of `n` modulo the even modulus `m`, in `[-m/2, m/2)`
      when signed and in `[0, m)` otherwise. */
  function Wrap(n: int, m: int, signed: bool): (r: int)
    requires m > 0 && m % 2 == 0
    ensures signed ==> -(m / 2) <= r < m / 2
    ensures !signed ==> 0 <= r < m
  {
    var low := n % m;
    if signed && low >= m / 2 then low - m else low
  }

  lemma WrapResidue(n: int, m: int, signed: bool)
    requires m > 0 && m % 2 == 0
    ensures Wrap(n, m, signed) % m == n % m
  {
    ModUnique(n % m, m, 0, n % m);
    ModUnique(n % m - m, m, -1, n % m);
  }

  lemma ModShift(n: int, m: int, k: int)
    requires m > 0
    ensures (n + k * m) % m == n % m
  {
    ModUnique(n + k * m, m, n / m + k, n % m);
  }

  /** Euclidean division is the only way to write `n` as `q * m + r`. */
  lemma ModUnique(n: int, m: int, q: int, r: int)
    requires m > 0 && 0 <= r < m && n == q * m + r
    ensures n / m == q && n % m == r
  {
    var q', r' := n / m, n % m;
    assert n == q' * m + r';
    assert (q - q') * m == r' - r && (q' - q) * m == r - r';
    if q > q' {
      MulAtLeast(q - q', m);
    } else if q < q' {
      MulAtLeast(q' - q, m);
    }
  }

  lemma MulAtLeast(k: int, m: int)
    requires k >= 1 && m > 0
    ensures k * m >= m
  {
    assert k * m == m + (k - 1) * m;
    assert (k - 1) * m >= 0;
  }

  /** A value already in the target range is its own representative. */
  lemma WrapFixes(n: int, m: int, signed: bool)
    requires m > 0 && m % 2 == 0
    requires if signed then -(m / 2) <= n < m / 2 else 0 <= n < m
    ensures Wrap(n, m, signed) == n
  {
    if n < 0 {
      ModUnique(n, m, -1, n + m);
    } else {
      ModUnique(n, m, 0, n);
    }
  }

  /** `Wrap` depends on its argument only through the residue. */
  lemma WrapCongruent(a: int, b: int, m: int, signed: bool)
    requires m > 0 && m % 2 == 0 && a % m == b % m
    ensures Wrap(a, m, signed) == Wrap(b, m, signed)
  {
  }

  /** Reducing by a multiple of the modulus first changes nothing. */
  lemma ModOfMod(n: int, big: int, m: int, k: int)
    requires m > 0 && k > 0 && big == k * m
    ensures big > 0 && (n % big) % m == n % m
  {
    assert big > 0 by { MulAtLeast(k, m); }
    var q := n / big;
    assert n == q * big + n % big;
    assert q * big == (q * k) * m by { MulAssoc(q, k, m); }
    ModShift(n % big, m, q * k);
  }

  lemma MulAssoc(a: int, b: int, c: int)
    ensures a * (b * c) == (a * b) * c
  {
  }

  lemma ModAdd(a: int, b: int, m: int)
    requires m > 0
    ensures (a % m + b % m) % m == (a + b) % m
  {
    DivMod(a, m);
    DivMod(b, m);
    Residues(a, b, a % m, b % m, a / m, b / m, m);
  }

  lemma ModSub(a: int, b: int, m: int)
    requires m > 0
    ensures (a % m - b % m) % m == (a - b) % m
  {
    DivMod(a, m);
    DivMod(b, m);
    assert (-(b / m)) * m == -((b / m) * m);
    Residues(a, -b, a % m, -(b % m), a / m, -(b / m), m);
  }

  lemma DivMod(a: int, m: int)
    requires m > 0
    ensures a == a % m + (a / m) * m
  {
  }

  lemma Residues(a: int, b: int, ra: int, rb: int, qa: int, qb: int, m: int)
    requires m > 0 && a == ra + qa * m && b == rb + qb * m
    ensures (ra + rb) % m == (a + b) % m
  {
    Distribute(qa, qb, m);
    ModShift(ra + rb, m, qa + qb);
  }

  lemma Distribute(a: int, b: int, c: int)
    ensures (a + b) * c == a * c + b * c
  {
  }

  lemma ModMul(a: int, b: int, m: int)
    requires m > 0
    ensures ((a % m) * (b % m)) % m == (a * b) % m
  {
    var qa, ra, qb, rb := a / m, a % m, b / m, b % m;
    assert a == qa * m + ra && b == qb * m + rb;
    var k := qa * b + ra * qb;
    calc {
      a * b;
      (qa * m + ra) * b;
      (qa * m) * b + ra * b;
      { assert (qa * m) * b == (qa * b) * m; }
      (qa * b) * m + ra * (qb * m + rb);
      { assert ra * (qb * m + rb) == (ra * qb) * m + ra * rb; }
      (qa * b) * m + (ra * qb) * m + ra * rb;
      { assert (qa * b) * m + (ra * qb) * m == k * m; }
      ra * rb + k * m;
    }
    ModShift(ra * rb, m, k);
  }

  lemma MulBound(a: int, b: int, x: int, y: int)
    requires -x <= a <= x && -y <= b <= y
    ensures -(x * y) <= a * b <= x * y
  {
    MulMonotone(Magnitude(a), Magnitude(b), x, y);
    assert (-a) * b == -(a * b) && a * (-b) == -(a * b) && (-a) * (-b) == a * b;
  }

  lemma MulMonotone(a: int, b: int, x: int, y: int)
    requires 0 <= a <= x && 0 <= b <= y
    ensures 0 <= a * b <= x * y
  {
    MulNonNegative(a, b);
    MulNonNegative(a, y - b);
    MulNonNegative(x - a, y);
    assert a * y == a * b + a * (y - b);
    assert x * y == a * y + (x - a) * y;
  }

  function Magnitude(a: int): (r: int)
    ensures r >= 0
  {
    if a < 0 then -a else a
  }

  // ---------- Division ----------

  /** Division truncating toward zero (ISO/IEC 9899:2011, section 6.5.5). */
  function TruncDiv(a: int, b: int): int
    requires b != 0
  {
    if a >= 0 then a / b else -((-a) / b)
  }

  function TruncRem(a: int, b: int): int
    requires b != 0
  {
    a - TruncDiv(a, b) * b
  }

  lemma QuotientBound(n: nat, d: int)
    requires d > 0
    ensures 0 <= n / d <= n && n == (n / d) * d + n % d && n % d <= n
    ensures d > 1 && n > 0 ==> n / d < n
  {
    var q, r := n / d, n % d;
    assert n == q * d + r;
    assert (-q) * d == -(q * d);
    if q < 0 {
      MulAtLeast(-q, d);
    } else if q > 0 {
      MulGrows(q, d);
    }
  }

  lemma MulGrows(q: int, d: int)
    requires q > 0 && d > 0
    ensures q * d >= q && (d > 1 ==> q * d > q)
  {
    assert q * d == q + q * (d - 1);
    if d > 1 {
      MulAtLeast(d - 1, q);
      assert (d - 1) * q == q * (d - 1);
    }
  }

  lemma DivByNegative(n: nat, b: int)
    requires b < 0
    ensures n / b == -(n / (-b))
  {
    var q, r := n / (-b), n % (-b);
    var q', r' := n / b, n % b;
    assert n == q * (-b) + r && n == q' * b + r';
    assert (q + q') * (-b) == r' - r && (-(q + q')) * (-b) == r - r';
    if q + q' > 0 {
      MulAtLeast(q + q', -b);
    } else if q + q' < 0 {
      MulAtLeast(-(q + q'), -b);
    }
  }

  /** The quotient and remainder through magnitudes. */
  lemma TruncBySign(a: int, b: int)
    requires b != 0
    ensures var n, d := Magnitude(a), Magnitude(b);
            && TruncDiv(a, b) == (if (a < 0) == (b < 0) then n / d else -(n / d))
            && TruncRem(a, b) == (if a < 0 then -(n % d) else n % d)
  {
    var n, d := Magnitude(a), Magnitude(b);
    if b < 0 {
      DivByNegative(n, b);
    }
    DivMod(n, d);
    NegatedProducts(n / d, d);
  }

  lemma NegatedProducts(q: int, d: int)
    ensures (-q) * d == -(q * d) && q * (-d) == -(q * d) && (-q) * (-d) == q * d
  {
  }

  lemma TruncDivBound(a: int, b: int)
    requires b != 0
    ensures -Magnitude(a) <= TruncDiv(a, b) <= Magnitude(a)
    ensures a >= 0 && b > 0 ==> TruncDiv(a, b) == a / b >= 0
    ensures b != -1 && a < 0 ==> TruncDiv(a, b) < -a
  {
    TruncBySign(a, b);
    QuotientBound(Magnitude(a), Magnitude(b));
  }

  lemma TruncRemBound(a: int, b: int)
    requires b != 0
    ensures -Magnitude(b) < TruncRem(a, b) < Magnitude(b)
    ensures if a >= 0 then 0 <= TruncRem(a, b) <= a else a <= TruncRem(a, b) <= 0
    ensures a >= 0 && b > 0 ==> TruncRem(a, b) == a % b
  {
    TruncBySign(a, b);
    QuotientBound(Magnitude(a), Magnitude(b));
  }

  /** `q` and `rem` divide `a` by `b`, truncating: the remainder is smaller than the
      divisor and takes the sign of `a`. */
  predicate Truncates(a: int, b: int, q: int, rem: int) {
    && a == q * b + rem
    && Magnitude(rem) < Magnitude(b)
    && (rem != 0 ==> (rem < 0 <==> a < 0))
  }

  lemma TruncMeans(a: int, b: int)
    requires b != 0
    ensures Truncates(a, b, TruncDiv(a, b), TruncRem(a, b))
  {
    TruncRemBound(a, b);
  }

  /** There is only one such quotient. */
  lemma TruncUnique(a: int, b: int, q: int, rem: int)
    requires b != 0 && Truncates(a, b, q, rem)
    ensures q == TruncDiv(a, b) && rem == TruncRem(a, b)
  {
    TruncMeans(a, b);
    hide TruncDiv, TruncRem;
    var q', r' := TruncDiv(a, b), TruncRem(a, b);
    Distribute(q, -q', b);
    NegatedProducts(q', b);
    SmallMultiple(q - q', b, r' - rem);
  }

  /** The only multiple of `b` nearer to zero than `b` is zero. */
  lemma SmallMultiple(k: int, b: int, x: int)
    requires k * b == x && Magnitude(x) < Magnitude(b)
    ensures k == 0
  {
    NegatedProducts(k, b);
    if k != 0 {
      MulAtLeast(Magnitude(k), Magnitude(b));
    }
  }

  // ---------- Bitwise operators ----------

  datatype BitOperator = BitAnd | BitOr | BitXor

  function OneBit(op: BitOperator, a: int, b: int): (r: int)
    ensures 0 <= r <= 1
  {
    match op
    case BitAnd => if a == 1 && b == 1 then 1 else 0
    case BitOr => if a == 1 || b == 1 then 1 else 0
    case BitXor => if a != b then 1 else 0
  }

  /** `op` on the low `width` bits of two patterns. */
  function Bitwise(op: BitOperator, a: nat, b: nat, width: nat): (r: nat)
    ensures r < Pow2(width)
    ensures width == 0 ==> r == 0
  {
    if width == 0 then 0
    else OneBit(op, a % 2, b % 2) + 2 * Bitwise(op, a / 2, b / 2, width - 1)
  }

  /** Binary digit `k`. */
  function Bit(n: nat, k: nat): bool { if k == 0 then n % 2 == 1 else Bit(n / 2, k - 1) }

  /** Every digit of the result is the logical operation on the operands' digits. */
  lemma {:induction false} BitwiseMeans(op: BitOperator, a: nat, b: nat, width: nat, k: nat)
    requires k < width
    ensures Bit(Bitwise(op, a, b, width), k) <==>
              (match op
               case BitAnd => Bit(a, k) && Bit(b, k)
               case BitOr => Bit(a, k) || Bit(b, k)
               case BitXor => Bit(a, k) != Bit(b, k))
    decreases k
  {
    if k > 0 {
      BitwiseMeans(op, a / 2, b / 2, width - 1, k - 1);
    }
  }

  /** Bits below and above a cut are computed independently. */
  lemma {:induction false} BitwiseSplit(op: BitOperator, a: nat, b: nat, low: nat, high: nat)
    ensures Bitwise(op, a, b, low + high)
         == Bitwise(op, a % Pow2(low), b % Pow2(low), low)
          + Bitwise(op, Quotient(a, low), Quotient(b, low), high) * Pow2(low)
  {
    hide Bitwise;
    if low == 0 {
      assert a % 1 == 0 && b % 1 == 0;
    } else {
      var p := Pow2(low - 1);
      BitwiseSplit(op, a / 2, b / 2, low - 1, high);
      HalveMod(a, p);
      HalveMod(b, p);
      BitwiseStep(op, a, b, low + high);
      BitwiseStep(op, a % (2 * p), b % (2 * p), low);
      SplitSum(OneBit(op, a % 2, b % 2), Bitwise(op, (a / 2) % p, (b / 2) % p, low - 1),
               Bitwise(op, Quotient(a / 2, low - 1), Quotient(b / 2, low - 1), high), p);
    }
  }

  lemma SplitSum(bit: int, low: int, high: int, p: int)
    ensures bit + 2 * (low + high * p) == (bit + 2 * low) + high * (2 * p)
  {
    DoubleFactor(high, p);
  }

  lemma BitwiseStep(op: BitOperator, a: nat, b: nat, width: nat)
    requires width > 0
    ensures Bitwise(op, a, b, width) == OneBit(op, a % 2, b % 2) + 2 * Bitwise(op, a / 2, b / 2, width - 1)
  {
  }

  function Quotient(a: nat, cut: nat): (q: nat)
  {
    QuotientBound(a, Pow2(cut));
    a / Pow2(cut)
  }

  lemma DoubleFactor(a: int, p: int)
    ensures 2 * (a * p) == a * (2 * p)
  {
  }

  lemma HalveMod(a: nat, p: int)
    requires p > 0
    ensures a % (2 * p) % 2 == a % 2 && a % (2 * p) / 2 == (a / 2) % p
    ensures a / 2 / p == a / (2 * p) >= 0
  {
    var q, r := a / 2 / p, (a / 2) % p;
    assert a / 2 == q * p + r;
    DoubleFactor(q, p);
    QuotientBound(a / 2, p);
    ModUnique(a, 2 * p, q, 2 * r + a % 2);
  }

  /** The result bits below a cut depend only on the operand bits below it. */
  lemma BitwiseLow(op: BitOperator, a: nat, b: nat, width: nat, cut: nat)
    requires cut <= width
    ensures Bitwise(op, a, b, width) % Pow2(cut) == Bitwise(op, a % Pow2(cut), b % Pow2(cut), cut)
  {
    BitwiseSplit(op, a, b, cut, width - cut);
    var low := Bitwise(op, a % Pow2(cut), b % Pow2(cut), cut);
    var high := Bitwise(op, Quotient(a, cut), Quotient(b, cut), width - cut);
    ModUnique(Bitwise(op, a, b, width), Pow2(cut), high, low);
  }

  lemma {:induction false} AndOnes(a: nat, width: nat)
    ensures Bitwise(BitAnd, a, Pow2(width) - 1, width) == a % Pow2(width)
  {
    if width == 0 {
      assert a % 1 == 0;
    } else {
      AndOnes(a / 2, width - 1);
      AndOnesStep(a, Pow2(width - 1), width);
    }
  }

  lemma AndOnesStep(a: nat, p: int, width: nat)
    requires width > 0 && p > 0 && Bitwise(BitAnd, a / 2, p - 1, width - 1) == (a / 2) % p
    ensures Bitwise(BitAnd, a, 2 * p - 1, width) == a % (2 * p)
  {
    HalveOnes(p);
    BitwiseStep(BitAnd, a, 2 * p - 1, width);
    hide Bitwise;
    HalveMod(a, p);
    DivMod(a % (2 * p), 2);
  }

  lemma HalveOnes(p: int)
    ensures (2 * p - 1) / 2 == p - 1 && (2 * p - 1) % 2 == 1
  {
  }

  lemma {:induction false} BitwiseZero(op: BitOperator, a: nat, width: nat)
    ensures op == BitAnd ==> Bitwise(op, a, 0, width) == 0 && Bitwise(op, 0, a, width) == 0
    ensures op != BitAnd ==> Bitwise(op, a, 0, width) == a % Pow2(width) && Bitwise(op, 0, a, width) == a % Pow2(width)
  {
    if width == 0 {
      assert a % 1 == 0;
    } else {
      BitwiseZero(op, a / 2, width - 1);
      HalveMod(a, Pow2(width - 1));
    }
  }

  /** Masking a wide pattern with `2^cut - 1` keeps the low `cut` bits. */
  lemma AndMask(a: nat, width: nat, cut: nat)
    requires cut <= width
    ensures Bitwise(BitAnd, a, Pow2(cut) - 1, width) == a % Pow2(cut)
  {
    var p := Pow2(cut);
    BitwiseSplit(BitAnd, a, p - 1, cut, width - cut);
    ModUnique(p - 1, p, 0, p - 1);
    AndOnes(a % p, cut);
    ModUnique(a % p, p, 0, a % p);
    BitwiseZero(BitAnd, Quotient(a, cut), width - cut);
  }

  /** Clearing the low `cut` bits rounds down to a multiple of `2^cut`. */
  lemma AndClear(a: nat, width: nat, cut: nat, keep: nat)
    requires cut <= width && a < Pow2(width) && keep == Pow2(width) - Pow2(cut)
    ensures Bitwise(BitAnd, a, keep, width) == a - a % Pow2(cut)
  {
    var p, t := Pow2(cut), Pow2(width - cut);
    Pow2Sum(cut, width - cut);
    Distribute(t, -1, p);
    ClearSplit(a, keep, t - 1, width, cut);
    DivMod(a, p);
    BelowProduct(Quotient(a, cut), t, p, a % p);
    AndOnes(Quotient(a, cut), width - cut);
    ModUnique(Quotient(a, cut), t, 0, Quotient(a, cut));
  }

  lemma ClearSplit(a: nat, keep: nat, high: nat, width: nat, cut: nat)
    requires cut <= width && keep == high * Pow2(cut)
    ensures Bitwise(BitAnd, a, keep, width) == Bitwise(BitAnd, Quotient(a, cut), high, width - cut) * Pow2(cut)
  {
    ModUnique(keep, Pow2(cut), high, 0);
    BitwiseSplit(BitAnd, a, keep, cut, width - cut);
    BitwiseZero(BitAnd, a % Pow2(cut), cut);
  }

  lemma BelowProduct(q: int, t: int, p: int, r: int)
    requires p > 0 && 0 <= r && q * p + r < t * p
    ensures q < t
  {
    if q >= t {
      MulNonNegative(q - t, p);
      Distribute(t, q - t, p);
    }
  }

  lemma MulNonNegative(a: int, b: int)
    requires a >= 0 && b >= 0
    ensures a * b >= 0
  {
  }

  /** Packing two disjoint fields with `|` is addition. */
  lemma OrPacks(low: nat, high: nat, width: nat, cut: nat, packed: nat)
    requires cut <= width && low < Pow2(cut) && high < Pow2(width - cut) && packed == high * Pow2(cut)
    ensures Bitwise(BitOr, low, packed, width) == low + packed
  {
    var p := Pow2(cut);
    ModUnique(packed, p, high, 0);
    ModUnique(low, p, 0, low);
    BitwiseSplit(BitOr, low, packed, cut, width - cut);
    BitwiseZero(BitOr, low, cut);
    BitwiseZero(BitOr, high, width - cut);
    ModUnique(high, Pow2(width - cut), 0, high);
  }

  /** `width` copies of the bit `s`. */
  function Ones(s: int, width: nat): nat { if s == 1 then Pow2(width) - 1 else 0 }

  /** A field of identical bits stays a field of identical bits. */
  lemma {:induction false} BitwiseUniform(op: BitOperator, a: int, b: int, width: nat)
    requires 0 <= a <= 1 && 0 <= b <= 1
    ensures Bitwise(op, Ones(a, width), Ones(b, width), width) == Ones(OneBit(op, a, b), width)
  {
    if width != 0 {
      BitwiseUniform(op, a, b, width - 1);
      BitwiseStep(op, Ones(a, width), Ones(b, width), width);
      OnesStep(a, width);
      OnesStep(b, width);
      OnesStep(OneBit(op, a, b), width);
    }
  }

  lemma OnesStep(s: int, width: nat)
    requires 0 <= s <= 1 && width > 0
    ensures Ones(s, width) % 2 == s && Ones(s, width) / 2 == Ones(s, width - 1)
  {
  }

  // ---------- Byte images ----------

  /** The `n` low bytes of `v`, least significant first. */
  function ToBytes(v: nat, n: nat): (bs: seq<int>)
    ensures |bs| == n
    ensures forall i | 0 <= i < n :: 0 <= bs[i] < 256
  {
    if n == 0 then [] else [v % 256] + ToBytes(v / 256, n - 1)
  }

  function FromBytes(bs: seq<int>): (v: int)
    requires forall i | 0 <= i < |bs| :: 0 <= bs[i] < 256
    ensures 0 <= v
  {
    if bs == [] then 0 else bs[0] + 256 * FromBytes(bs[1..])
  }

  lemma {:induction false} BytesRoundTrip(v: nat, n: nat)
    requires v < Pow2(8 * n)
    ensures FromBytes(ToBytes(v, n)) == v
  {
    if n != 0 {
      Pow2Sum(8, 8 * (n - 1));
      Pow2Values();
      assert v / 256 < Pow2(8 * (n - 1));
      BytesRoundTrip(v / 256, n - 1);
      assert ToBytes(v, n)[1..] == ToBytes(v / 256, n - 1);
    }
  }

  lemma {:induction false} FromBytesBound(bs: seq<int>)
    requires forall i | 0 <= i < |bs| :: 0 <= bs[i] < 256
    ensures FromBytes(bs) < Pow2(8 * |bs|)
  {
    if bs != [] {
      FromBytesBound(bs[1..]);
      Pow2Sum(8, 8 * (|bs| - 1));
      Pow2Values();
    }
  }
}
