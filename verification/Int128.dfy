/** 128-bit unsigned integers in two 64-bit words, with C's wrap-around in each word. */
module Int128 {
  import opened Ctypes

  const TWO_TO_128: int := TWO_TO_64 * TWO_TO_64
  const UINT64_BIT_COUNT: nat := 64
  const UINT32_BIT_COUNT: nat := 32
  const UINT32_BIT_MASK: uint64 := 0xFFFF_FFFF

  // ----- C operators on one word

  function Pow2(n: nat): (p: nat)
    ensures p >= 1
  {
    if n == 0 then 1 else 2 * Pow2(n - 1)
  }

  function BitOr(a: nat, b: nat): nat
    decreases a + b
  {
    if a == 0 && b == 0 then 0 else Max(a % 2, b % 2) + 2 * BitOr(a / 2, b / 2)
  }

  function BitAnd(a: nat, b: nat): nat {
    if a == 0 || b == 0 then 0 else Min(a % 2, b % 2) + 2 * BitAnd(a / 2, b / 2)
  }

  function Wrap(x: int): uint64 {
    x % TWO_TO_64
  }

  function ShiftLeft(x: uint64, bits: nat): uint64 {
    Wrap(x * Pow2(bits))
  }

  function ShiftRight(x: uint64, bits: nat): (r: uint64)
  {
    DivideShrinks(x, Pow2(bits));
    x / Pow2(bits)
  }

  // ----- Arithmetic facts

  lemma DivideShrinks(x: nat, p: nat)
    requires p >= 1
    ensures 0 <= x / p <= x
  {
    var q := x / p;
    assert x == p * q + x % p;
    MulOrder(q, p, 1);
  }

  lemma DivMod(x: nat, d: nat) returns (q: nat, r: nat)
    requires d >= 1
    ensures q == x / d && r == x % d && x == d * q + r && r < d
  {
    DivideShrinks(x, d);
    q, r := x / d, x % d;
  }

  lemma DivModUnique(n: int, d: int, q: int, r: int)
    requires d > 0 && n == d * q + r && 0 <= r < d
    ensures n / d == q && n % d == r
  {
    var q', r' := n / d, n % d;
    assert d * (q - q') == r' - r;
    MulOrder(d, q - q', 1);
    MulOrder(d, q - q', -1);
  }

  lemma {:induction false} Pow2Add(a: nat, b: nat)
    ensures Pow2(a + b) == Pow2(a) * Pow2(b)
  {
    if a > 0 {
      Pow2Add(a - 1, b);
      assert Pow2(a + b) == 2 * Pow2(a - 1 + b);
    }
  }

  lemma Pow2Double(n: nat, p: nat)
    requires Pow2(n) == p
    ensures Pow2(2 * n) == p * p
  {
    Pow2Add(n, n);
  }

  lemma Pow2Of64()
    ensures Pow2(32) == TWO_TO_32 && Pow2(64) == TWO_TO_64
  {
    assert Pow2(4) == 16;
    Pow2Double(4, 16);
    Pow2Double(8, 0x100);
    Pow2Double(16, 0x1_0000);
    Pow2Double(32, 0x1_0000_0000);
  }

  /** Or-ing numbers without a common bit adds them. */
  lemma {:induction false} OrOfDisjoint(a: nat, b: nat, k: nat)
    requires a % Pow2(k) == 0 && b < Pow2(k)
    ensures BitOr(a, b) == BitOr(b, a) == a + b
  {
    if k == 0 {
      OrZero(a);
    } else {
      var p := Pow2(k - 1);
      var q := a / Pow2(k);
      assert a == 2 * (p * q) by {
        assert a == Pow2(k) * q;
      }
      DivModUnique(a / 2, p, q, 0);
      OrOfDisjoint(a / 2, b / 2, k - 1);
    }
  }

  lemma {:induction false} OrZero(a: nat)
    ensures BitOr(a, 0) == BitOr(0, a) == a
  {
    if a > 0 { OrZero(a / 2); }
  }

  lemma RemainderOfHalf(x: nat, p: nat)
    requires p >= 1
    ensures x % (2 * p) == 2 * (x / 2 % p) + x % 2
  {
    var q, r := x / 2 / p, x / 2 % p;
    assert x / 2 == p * q + r;
    assert (2 * p) * q == 2 * (p * q);
    DivModUnique(x, 2 * p, q, 2 * r + x % 2);
  }

  /** And-ing with k ones takes the remainder modulo 2^k. */
  lemma {:induction false} AndMask(x: nat, k: nat)
    ensures BitAnd(x, Pow2(k) - 1) == x % Pow2(k)
  {
    if x == 0 {
      DivModUnique(0, Pow2(k), 0, 0);
    } else if k > 0 {
      var p := Pow2(k - 1);
      var ones := 2 * p - 1;
      RemainderOfHalf(x, p);
      AndMask(x / 2, k - 1);
      assert ones / 2 == p - 1 && ones % 2 == 1;
    }
  }

  // ----- Words and pairs of words

  class Uint128 {
    var lo: uint64
    var hi: uint64

    constructor (hi: uint64, lo: uint64)
      ensures this.hi == hi && this.lo == lo
    {
      this.hi, this.lo := hi, lo;
    }

    function Value(): (v: int)
      reads this
      ensures 0 <= v < TWO_TO_128
    {
      hi * TWO_TO_64 + lo
    }
  }

  /** The carry into the high word, as C sees it: the low sum came out below the old low word. */
  function Carried(h: uint64, low: uint64, sum: uint64): uint64 {
    if low > sum then Wrap(h + 1) else h
  }

  /** The borrow from the high word: the low difference came out above the old low word. */
  function Borrowed(h: uint64, low: uint64, difference: uint64): uint64 {
    if low < difference then Wrap(h - 1) else h
  }

  lemma AddWithCarry(h: uint64, l: uint64, h': uint64, l': uint64, hi: uint64, lo: uint64)
    requires lo == Wrap(l + l') && hi == Wrap(Carried(h, l, lo) + h')
    ensures hi * TWO_TO_64 + lo == (h * TWO_TO_64 + l + h' * TWO_TO_64 + l') % TWO_TO_128
  {
    var carry := if l > lo then 1 else 0;
    WrapOnce(l + l');
    WrapOnce(h + carry);
    WrapOnce(Carried(h, l, lo) + h');
    var out := (h + carry + h' - hi) / TWO_TO_64;
    DivModUnique(h * TWO_TO_64 + l + h' * TWO_TO_64 + l', TWO_TO_128, out, hi * TWO_TO_64 + lo);
  }

  /** A number added to itself: the high word that is added has already been carried into. */
  lemma AliasedIncrement(h: uint64, l: uint64, hi: uint64, lo: uint64)
    requires lo == Wrap(l + l) && hi == Wrap(Carried(h, l, lo) + Carried(h, l, lo))
    ensures hi * TWO_TO_64 + lo ==
            (2 * (h * TWO_TO_64 + l) + if 2 * l >= TWO_TO_64 then TWO_TO_64 else 0) % TWO_TO_128
  {
    var carry := if l > lo then 1 else 0;
    WrapOnce(l + l);
    WrapOnce(h + carry);
    WrapOnce(Carried(h, l, lo) + Carried(h, l, lo));
    var out := (2 * (h + carry) - hi) / TWO_TO_64;
    DivModUnique(2 * (h * TWO_TO_64 + l) + carry * TWO_TO_64, TWO_TO_128, out, hi * TWO_TO_64 + lo);
  }

  lemma SubWithBorrow(h: uint64, l: uint64, h': uint64, l': uint64, hi: uint64, lo: uint64)
    requires lo == Wrap(l - l') && hi == Wrap(Borrowed(h, l, lo) - h')
    ensures hi * TWO_TO_64 + lo == (h * TWO_TO_64 + l - h' * TWO_TO_64 - l') % TWO_TO_128
  {
    var borrow := if l < lo then 1 else 0;
    WrapOnce(l - l');
    WrapOnce(h - borrow);
    WrapOnce(Borrowed(h, l, lo) - h');
    var out := (h - borrow - h' - hi) / TWO_TO_64;
    DivModUnique(h * TWO_TO_64 + l - h' * TWO_TO_64 - l', TWO_TO_128, out, hi * TWO_TO_64 + lo);
  }

  lemma WrapOnce(x: int)
    requires -TWO_TO_64 <= x < 2 * TWO_TO_64
    ensures Wrap(x) == if x < 0 then x + TWO_TO_64 else if x < TWO_TO_64 then x else x - TWO_TO_64
  {
  }

  /** The low words are added first; a sum below the old low word means a carry. When the value is the base
      itself, the high word that is added is the one already carried into. */
  method Increment128(base: Uint128, value: Uint128)
    modifies base
    ensures base != value ==> base.Value() == (old(base.Value()) + value.Value()) % TWO_TO_128
    ensures base == value ==>
              base.Value() == (2 * old(base.Value()) + if 2 * old(base.lo) >= TWO_TO_64 then TWO_TO_64 else 0) % TWO_TO_128
  {
    var low := base.lo;
    ghost var h, h', l' := base.hi, value.hi, value.lo;
    base.lo := Wrap(base.lo + value.lo);
    if low > base.lo {
      base.hi := Wrap(base.hi + 1);
    }
    assert base.hi == Carried(h, low, base.lo);
    base.hi := Wrap(base.hi + value.hi);
    if base == value {
      AliasedIncrement(h, low, base.hi, base.lo);
    } else {
      AddWithCarry(h, low, h', l', base.hi, base.lo);
    }
  }

  method Increment64(base: Uint128, value: uint64)
    modifies base
    ensures base.Value() == (old(base.Value()) + value) % TWO_TO_128
  {
    var low := base.lo;
    ghost var h := base.hi;
    base.lo := Wrap(base.lo + value);
    if low > base.lo {
      base.hi := Wrap(base.hi + 1);
    }
    assert base.hi == Carried(h, low, base.lo);
    WrapOnce(base.hi);
    AddWithCarry(h, low, 0, value, base.hi, base.lo);
  }

  method Decrement128(base: Uint128, value: Uint128)
    modifies base
    ensures base.Value() == (old(base.Value()) - old(value.Value())) % TWO_TO_128
  {
    var lo := base.lo;
    ghost var h, h', l' := base.hi, value.hi, value.lo;
    base.lo := Wrap(base.lo - value.lo);
    if lo < base.lo {
      base.hi := Wrap(base.hi - 1);
    }
    assert base.hi == Borrowed(h, lo, base.lo);
    base.hi := Wrap(base.hi - value.hi);
    if base == value {
      DecrementSame(h, lo, base.hi, base.lo);
    } else {
      SubWithBorrow(h, lo, h', l', base.hi, base.lo);
    }
  }

  lemma DecrementSame(h: uint64, l: uint64, hi: uint64, lo: uint64)
    requires lo == Wrap(l - l) && hi == Wrap(Borrowed(h, l, lo) - Borrowed(h, l, lo))
    ensures hi == lo == 0
  {
  }

  method Compare(value1: Uint128, value2: Uint128) returns (r: int)
    ensures r == if value1.Value() < value2.Value() then -1 else if value1.Value() == value2.Value() then 0 else 1
  {
    if value1.hi != value2.hi {
      return if value1.hi < value2.hi then -1 else 1;
    }
    if value1.lo == value2.lo {
      return 0;
    }
    return if value1.lo < value2.lo then -1 else 1;
  }

  // ----- Shifts over two words

  /** A power of two and its cofactor in one word. */
  lemma Pow2Split(bits: nat)
    requires bits <= 64
    ensures Pow2(bits) * Pow2(64 - bits) == TWO_TO_64
  {
    Pow2Of64();
    Pow2Add(bits, 64 - bits);
  }

  /** Multiplying by p keeps the q low bits of the word when p * q is the word. */
  lemma ShiftLeftWord(x: nat, p: nat, q: nat)
    requires p >= 1 && q >= 1
    ensures p * q >= 1 && (x * p) % (p * q) == (x % q) * p
  {
    MulOrder(p, q, 1);
    var a, b := x / q, x % q;
    assert x == q * a + b;
    assert x * p == (p * q) * a + b * p;
    MulOrder(p, b, 0);
    MulOrder(p, b, q - 1);
    assert b * p < p * q;
    DivModUnique(x * p, p * q, a, b * p);
  }

  lemma ShiftRightPair(hi: nat, lo: nat, p: nat, q: nat)
    requires p >= 1 && q >= 1 && lo < p * q
    ensures (hi * (p * q) + lo) / p == hi * q + lo / p
    ensures (hi / p) * (p * q) + (hi % p) * q == hi * q
    ensures 0 <= lo / p < q
  {
    var c, d := lo / p, lo % p;
    assert lo == p * c + d;
    assert hi * (p * q) + lo == p * (hi * q + c) + d;
    DivModUnique(hi * (p * q) + lo, p, hi * q + c, d);
    assert hi == p * (hi / p) + hi % p;
    assert hi * q == (p * (hi / p)) * q + (hi % p) * q;
    assert (p * (hi / p)) * q == (hi / p) * (p * q);
    MulOrder(p, c, q);
    MulOrder(p, c, -1);
  }

  /** Two digits below q and p. */
  lemma Digits(p: nat, q: nat, b: nat, c: nat)
    requires b < q && c < p
    ensures 0 <= b * p + c < p * q
  {
    MulOrder(p, b, q - 1);
    assert p * (q - 1) == p * q - p;
  }

  lemma Regroup(p: nat, w: nat, q: nat, a: nat, b: nat, c: nat, d: nat)
    requires w == p * q
    ensures ((q * a + b) * w + (q * c + d)) * p == (w * w) * a + ((b * p + c) * w + d * p)
  {
    var hi, lo := q * a + b, q * c + d;
    Distribute(p, q * a, b);
    Distribute(p, q * c, d);
    assert p * (q * a) == w * a && p * (q * c) == w * c;
    Distribute(p, hi * w, lo);
    assert p * (hi * w) == (p * hi) * w;
    Distribute(w, w * a, b * p);
    assert w * (w * a) == (w * w) * a;
    Distribute(w, b * p, c);
  }

  lemma ShiftLeftDigits(p: nat, w: nat, q: nat, hi: nat, lo: nat, a: nat, b: nat, c: nat, d: nat)
    requires w == p * q && b < q && d < q && c < p
    requires hi == q * a + b && lo == q * c + d
    ensures 0 < w * w && ((hi * w + lo) * p) % (w * w) == (b * p + c) * w + d * p
    ensures b * p + c < w && d * p < w
  {
    Digits(p, q, b, c);
    Digits(p, q, d, 0);
    Digits(w, w, b * p + c, d * p);
    Regroup(p, w, q, a, b, c, d);
    DivModUnique((hi * w + lo) * p, w * w, a, (b * p + c) * w + d * p);
  }

  lemma HighDigit(p: nat, q: nat, x: nat)
    requires q >= 1 && x < p * q
    ensures 0 <= x / q < p
  {
    MulOrder(q, x / q, p);
    MulOrder(q, x / q, -1);
  }

  method ShiftRight128(base: Uint128, bits: nat)
    requires bits < 128
    modifies base
    ensures base.Value() == old(base.Value()) / Pow2(bits)
  {
    ghost var hi, lo := base.hi, base.lo;
    if bits == 0 {
      return;
    }
    if UINT64_BIT_COUNT <= bits {
      ShiftRightByWord(hi, lo, bits - 64);
      base.lo := ShiftRight(base.hi, bits - UINT64_BIT_COUNT);
      base.hi := 0;
      return;
    }
    ShiftRightWithinWord(hi, lo, bits);
    base.lo := ShiftRight(base.lo, bits);
    base.lo := BitOr(base.lo, ShiftLeft(base.hi, UINT64_BIT_COUNT - bits));
    base.hi := ShiftRight(base.hi, bits);
  }

  lemma ShiftRightWithinWord(hi: uint64, lo: uint64, bits: nat)
    requires 0 < bits < 64
    ensures BitOr(ShiftRight(lo, bits), ShiftLeft(hi, 64 - bits)) < TWO_TO_64
    ensures ShiftRight(hi, bits) * TWO_TO_64 + BitOr(ShiftRight(lo, bits), ShiftLeft(hi, 64 - bits)) ==
            (hi * TWO_TO_64 + lo) / Pow2(bits)
  {
    var p, q := Pow2(bits), Pow2(64 - bits);
    Pow2Split(bits);
    ShiftLeftWord(hi, q, p);
    ShiftRightPair(hi, lo, p, q);
    var moved := (hi % p) * q;
    DivModUnique(moved, q, hi % p, 0);
    OrOfDisjoint(moved, lo / p, 64 - bits);
    Digits(q, p, hi % p, lo / p);
  }

  lemma WordMultiple(p: nat, q: nat)
    ensures (p * q) * TWO_TO_64 == (TWO_TO_64 * p) * q
  {
    var x := p * q;
    assert (TWO_TO_64 * p) * q == TWO_TO_64 * x;
  }

  lemma ShiftRightByWord(hi: uint64, lo: uint64, bits: nat)
    ensures ShiftRight(hi, bits) == (hi * TWO_TO_64 + lo) / Pow2(64 + bits)
  {
    var p := Pow2(bits);
    var q, r := DivMod(hi, p);
    Pow2Of64();
    Pow2Add(64, bits);
    Digits(TWO_TO_64, p, r, lo);
    WordMultiple(p, q);
    DivModUnique(hi * TWO_TO_64 + lo, TWO_TO_64 * p, q, r * TWO_TO_64 + lo);
  }

  method ShiftLeft128(base: Uint128, bits: nat)
    requires bits < 128
    modifies base
    ensures base.Value() == (old(base.Value()) * Pow2(bits)) % TWO_TO_128
  {
    ghost var hi, lo := base.hi, base.lo;
    if bits == 0 {
      return;
    }
    if UINT64_BIT_COUNT <= bits {
      ShiftLeftByWord(hi, lo, bits - 64);
      base.hi := ShiftLeft(base.lo, bits - UINT64_BIT_COUNT);
      base.lo := 0;
      return;
    }
    ShiftLeftWithinWord(hi, lo, bits);
    base.hi := ShiftLeft(base.hi, bits);
    base.hi := BitOr(base.hi, ShiftRight(base.lo, UINT64_BIT_COUNT - bits));
    base.lo := ShiftLeft(base.lo, bits);
  }

  lemma ShiftLeftWithinWord(hi: uint64, lo: uint64, bits: nat)
    requires 0 < bits < 64
    ensures BitOr(ShiftLeft(hi, bits), ShiftRight(lo, 64 - bits)) < TWO_TO_64
    ensures BitOr(ShiftLeft(hi, bits), ShiftRight(lo, 64 - bits)) * TWO_TO_64 + ShiftLeft(lo, bits) ==
            ((hi * TWO_TO_64 + lo) * Pow2(bits)) % TWO_TO_128
  {
    var p, q := Pow2(bits), Pow2(64 - bits);
    Pow2Split(bits);
    ShiftLeftWord(hi, p, q);
    ShiftLeftWord(lo, p, q);
    HighDigit(p, q, lo);
    var a, b := DivMod(hi, q);
    var c, d := DivMod(lo, q);
    ShiftLeftDigits(p, TWO_TO_64, q, hi, lo, a, b, c, d);
    DivModUnique(b * p, p, b, 0);
    OrOfDisjoint(b * p, c, bits);
  }

  lemma WordProduct(hi: nat, lo: nat, p: nat)
    ensures (hi * TWO_TO_64 + lo) * (TWO_TO_64 * p) == (hi * p) * TWO_TO_128 + (lo * p) * TWO_TO_64
  {
    var x, y := hi * p, lo * p;
    assert (hi * TWO_TO_64 + lo) * p == x * TWO_TO_64 + y;
    assert (hi * TWO_TO_64 + lo) * (TWO_TO_64 * p) == ((hi * TWO_TO_64 + lo) * p) * TWO_TO_64;
  }

  lemma ShiftLeftByWord(hi: uint64, lo: uint64, bits: nat)
    ensures ShiftLeft(lo, bits) * TWO_TO_64 == ((hi * TWO_TO_64 + lo) * Pow2(64 + bits)) % TWO_TO_128
  {
    var p := Pow2(bits);
    Pow2Of64();
    Pow2Add(64, bits);
    var a, b := lo * p / TWO_TO_64, Wrap(lo * p);
    var n := (hi * TWO_TO_64 + lo) * (TWO_TO_64 * p);
    WordProduct(hi, lo, p);
    assert lo * p == TWO_TO_64 * a + b;
    DivModUnique(n, TWO_TO_128, hi * p + a, b * TWO_TO_64);
  }

  // ----- Multiplication

  lemma ModSum(a: int, b: int, m: int)
    requires m > 0
    ensures (a % m + b) % m == (a + b) % m
    ensures (a + b % m) % m == (a + b) % m
  {
    var qa, qb := a / m, b / m;
    assert a + b == (a % m + b) + m * qa == (a + b % m) + m * qb;
    ModShift(a % m + b, qa, m);
    ModShift(a + b % m, qb, m);
  }

  lemma ModShift(x: int, q: int, m: int)
    requires m > 0
    ensures (x + m * q) % m == x % m
  {
    assert x + m * q == m * (x / m + q) + x % m;
    DivModUnique(x + m * q, m, x / m + q, x % m);
  }

  lemma HalvesProduct(value: nat, factor: nat, p: nat)
    ensures (value % TWO_TO_32 * factor) * p + (value / TWO_TO_32 * factor) * (TWO_TO_32 * p) == value * factor * p
  {
    var h, l := value / TWO_TO_32, value % TWO_TO_32;
    var x, y := l * (factor * p), h * (factor * p);
    assert (l * factor) * p == x && (h * factor) * (TWO_TO_32 * p) == y * TWO_TO_32;
    assert value * factor * p == (h * TWO_TO_32 + l) * (factor * p) == y * TWO_TO_32 + x;
  }

  lemma HalfProductFits(x: nat, factor: nat)
    requires x < TWO_TO_32 && factor < TWO_TO_32
    ensures 0 <= x * factor < TWO_TO_64 && Wrap(x * factor) == x * factor
  {
    MulOrder(x, factor, TWO_TO_32);
    MulOrder(x, factor, 0);
  }

  /** Places one partial product and adds it. */
  method AddShifted(base: Uint128, product: uint64, shift: nat)
    requires shift < 128
    modifies base
    ensures base.Value() == (old(base.Value()) + product * Pow2(shift)) % TWO_TO_128
  {
    ModSum(base.Value(), product * Pow2(shift), TWO_TO_128);
    var buffer := new Uint128(0, product);
    ShiftLeft128(buffer, shift);
    Increment128(base, buffer);
  }

  /** The two partial products that the halves of the value give. */
  lemma PartialProducts(base: int, value: uint64, factor: uint64, shift: nat)
    requires factor < TWO_TO_32
    ensures var low := Wrap(BitAnd(value, UINT32_BIT_MASK) * factor);
            var high := Wrap(ShiftRight(value, UINT32_BIT_COUNT) * factor);
            ((base + low * Pow2(shift)) % TWO_TO_128 + high * Pow2(UINT32_BIT_COUNT + shift)) % TWO_TO_128 ==
            (base + value * factor * Pow2(shift)) % TWO_TO_128
  {
    Pow2Of64();
    AndMask(value, 32);
    HalfProductFits(value % TWO_TO_32, factor);
    HalfProductFits(value / TWO_TO_32, factor);
    Pow2Add(32, shift);
    HalvesProduct(value, factor, Pow2(shift));
    ModSum(base + (value % TWO_TO_32 * factor) * Pow2(shift),
           (value / TWO_TO_32 * factor) * Pow2(32 + shift), TWO_TO_128);
  }

  /** Adds value * factor * 2^shift, one half of the value at a time. */
  method Multiply64By32Shift(base: Uint128, value: uint64, factor: uint64, shift: nat)
    requires factor < TWO_TO_32 && shift < 96
    modifies base
    ensures base.Value() == (old(base.Value()) + value * factor * Pow2(shift)) % TWO_TO_128
  {
    PartialProducts(base.Value(), value, factor, shift);
    AddShifted(base, Wrap(BitAnd(value, UINT32_BIT_MASK) * factor), shift);
    AddShifted(base, Wrap(ShiftRight(value, UINT32_BIT_COUNT) * factor), UINT32_BIT_COUNT + shift);
  }

  /** The halves of the factor, and that no product of two words overflows. */
  lemma FactorHalves(value: uint64, factor: uint64)
    ensures var l := BitAnd(factor, UINT32_BIT_MASK);
            var h := ShiftRight(factor, UINT32_BIT_COUNT);
            && l < TWO_TO_32 && h < TWO_TO_32
            && ((0 + value * l * Pow2(0)) % TWO_TO_128 + value * h * Pow2(UINT32_BIT_COUNT)) % TWO_TO_128 == value * factor
  {
    Pow2Of64();
    AndMask(factor, 32);
    var l, h := factor % TWO_TO_32, factor / TWO_TO_32;
    FactorProduct(value, l, h);
    ModSum(value * l, value * h * TWO_TO_32, TWO_TO_128);
    DivModUnique(value * factor, TWO_TO_128, 0, value * factor);
  }

  lemma FactorProduct(value: uint64, l: uint32, h: uint32)
    ensures var factor := h * TWO_TO_32 + l;
            value * factor == value * l + value * h * TWO_TO_32 && 0 <= value * factor < TWO_TO_128
  {
    var factor := h * TWO_TO_32 + l;
    Distribute(value, h * TWO_TO_32, l);
    assert value * (h * TWO_TO_32) == value * h * TWO_TO_32;
    MulOrder(value, factor, TWO_TO_64);
    MulOrder(value, factor, 0);
    MulOrder(TWO_TO_64, value + 1, TWO_TO_64);
  }

  /** The exact product. */
  method Multiply64(result: Uint128, value: uint64, factor: uint64)
    modifies result
    ensures result.Value() == value * factor
  {
    FactorHalves(value, factor);
    result.hi, result.lo := 0, 0;
    Multiply64By32Shift(result, value, BitAnd(factor, UINT32_BIT_MASK), 0);
    Multiply64By32Shift(result, value, ShiftRight(factor, UINT32_BIT_COUNT), UINT32_BIT_COUNT);
  }

  // ----- Division

  /** The state of the manual division of r0 by v: what has been subtracted is v times the quotient so far,
      the divisor is v times the mask 2^k, and the quotient bits still to come are the ones below 2^(k+1). */
  ghost predicate Dividing(r0: nat, v: nat, remainder: nat, divisor: nat, quotient: nat, k: nat) {
    && divisor == v * Pow2(k)
    && r0 == v * quotient + remainder
    && r0 < v * TWO_TO_64
    && remainder < 2 * divisor
    && quotient % Pow2(k) == 0
    && (remainder < divisor || quotient % Pow2(k + 1) == 0)
  }

  lemma MultipleOf(x: nat, d: nat, e: nat)
    requires d >= 1 && e >= 1 && x % (d * e) == 0 && d * e >= 1
    ensures x % d == 0
  {
    var q := x / (d * e);
    assert x == d * (e * q);
    DivModUnique(x, d, e * q, 0);
  }

  lemma Distribute(v: int, a: int, b: int)
    ensures v * (a + b) == v * a + v * b
  {
  }

  lemma QuotientFits(r0: nat, v: nat, remainder: nat, quotient: nat)
    requires v > 0 && r0 == v * quotient + remainder && r0 < v * TWO_TO_64
    ensures quotient < TWO_TO_64
  {
    MulOrder(v, quotient, TWO_TO_64);
  }

  /** While the remainder does not fit in one word the mask is not exhausted, and halving divisor and mask loses no bit. */
  lemma HalvingStep(r0: nat, v: uint64, remainder: nat, divisor: nat, quotient: nat, k: nat)
    requires Dividing(r0, v, remainder, divisor, quotient, k)
    requires TWO_TO_64 <= remainder < divisor
    ensures k > 0 && Dividing(r0, v, remainder, divisor / 2, quotient, k - 1)
    ensures Pow2(k) / 2 == Pow2(k - 1) >= 1
  {
    assert Pow2(0) == 1;
    assert v * 1 == v;
    var p := Pow2(k - 1);
    assert v * (2 * p) == 2 * (v * p);
    MultipleOf(quotient, p, 2);
  }

  lemma SubtractingStep(r0: nat, v: uint64, remainder: nat, divisor: nat, quotient: nat, k: nat)
    requires v > 0 && Dividing(r0, v, remainder, divisor, quotient, k)
    requires divisor <= remainder
    ensures divisor > 0
    ensures BitOr(quotient, Pow2(k)) == quotient + Pow2(k) < TWO_TO_64
    ensures Dividing(r0, v, remainder - divisor, divisor, quotient + Pow2(k), k)
  {
    var p := Pow2(k);
    MulOrder(v, p, 1);
    OrOfDisjoint(quotient, p, k + 1);
    Distribute(v, quotient, p);
    QuotientFits(r0, v, remainder - divisor, quotient + p);
    ModShift(quotient, 1, p);
  }

  /** The quotient of the rest only has bits that are still free. */
  lemma FreeBits(r0: nat, v: nat, remainder: nat, divisor: nat, quotient: nat, k: nat, q: nat, r: nat)
    requires v > 0 && Dividing(r0, v, remainder, divisor, quotient, k)
    requires remainder == v * q + r && r < v
    ensures BitOr(quotient, q) == quotient + q
  {
    if remainder < divisor {
      FreeBelow(v, quotient, q, k);
    } else {
      var p := Pow2(k);
      assert v * (2 * p) == 2 * (v * p);
      FreeBelow(v, quotient, q, k + 1);
    }
  }

  lemma FreeBelow(v: nat, quotient: nat, q: nat, k: nat)
    requires quotient % Pow2(k) == 0 && v * q < v * Pow2(k)
    ensures BitOr(quotient, q) == quotient + q
  {
    MulOrder(v, q, Pow2(k));
    OrOfDisjoint(quotient, q, k);
  }

  /** The last bits come from one word-by-word division. */
  lemma FinalStep(r0: nat, v: uint64, remainder: nat, divisor: nat, quotient: nat, k: nat)
    requires v > 0 && Dividing(r0, v, remainder, divisor, quotient, k)
    ensures 0 <= remainder / v
    ensures BitOr(quotient, remainder / v) == r0 / v < TWO_TO_64
  {
    var q, r := DivMod(remainder, v);
    FreeBits(r0, v, remainder, divisor, quotient, k, q, r);
    Distribute(v, quotient, q);
    DivModUnique(r0, v, quotient + q, r);
    QuotientFits(r0, v, r, quotient + q);
  }

  lemma HighWordRemainder(hi: uint64, v: uint64)
    requires v > 0
    ensures 0 <= hi / v < TWO_TO_64 && 0 <= hi % v < v
    ensures Wrap(hi - Wrap(hi / v * v)) == hi % v
    ensures hi < v ==> hi / v == 0 && hi % v == hi
  {
    var q, r := DivMod(hi, v);
    assert q * v == v * q;
    WrapOnce(q * v);
    WrapOnce(hi - q * v);
    if hi < v { DivModUnique(hi, v, 0, hi); }
  }

  /** What is left to divide after the high words have been divided. */
  lemma HighWordDivided(hi: uint64, lo: uint64, v: uint64)
    requires v > 0
    ensures 0 <= hi / v && 0 <= hi % v < v && 0 <= lo / v < TWO_TO_64
    ensures (hi * TWO_TO_64 + lo) / v == (hi / v) * TWO_TO_64 + ((hi % v) * TWO_TO_64 + lo) / v
    ensures hi == 0 ==> hi / v == 0 && hi % v == 0
  {
    var q, r := DivMod(hi, v);
    var s, t := DivMod(r * TWO_TO_64 + lo, v);
    DivideShrinks(lo, v);
    Distribute(v, q * TWO_TO_64, s);
    assert v * (q * TWO_TO_64) == (v * q) * TWO_TO_64;
    DivModUnique(hi * TWO_TO_64 + lo, v, q * TWO_TO_64 + s, t);
    if hi == 0 { DivModUnique(0, v, 0, 0); }
  }

  /** Where manual division starts: the divisor shifted left by one word and pre-shifted right by one bit. */
  lemma StartsDividing(r0: nat, v: uint64)
    requires r0 < v * TWO_TO_64
    ensures Dividing(r0, v, r0, v * TWO_TO_64 / 2, 0, 63)
    ensures ShiftLeft(1, 63) == Pow2(63) && Pow2(1) == 2
  {
    Pow2Of64();
    assert Pow2(64) == 2 * Pow2(63);
    DivModUnique(0, Pow2(63), 0, 0);
    DivModUnique(0, Pow2(64), 0, 0);
  }

  /** Divides the high words; result may be the dividend. */
  method DivideHighWord(result: Uint128, dividend: Uint128, value: uint64) returns (remainder: Uint128)
    requires value > 0
    modifies result
    ensures fresh(remainder)
    ensures result.hi == old(dividend.hi) / value && result.lo == 0
    ensures remainder.hi == old(dividend.hi) % value && remainder.lo == old(dividend.lo)
  {
    HighWordRemainder(dividend.hi, value);
    remainder := new Uint128(dividend.hi, dividend.lo);
    if dividend.hi >= value {
      result.hi := dividend.hi / value;
      remainder.hi := Wrap(remainder.hi - Wrap(result.hi * value));
    } else {
      result.hi := 0;
    }
    result.lo := 0;
  }

  /** Shift-subtract division. The result may be the dividend itself. */
  method Divide64(result: Uint128, dividend: Uint128, value: uint64)
    requires value > 0
    modifies result
    ensures result.Value() == old(dividend.Value()) / value
  {
    HighWordDivided(dividend.hi, dividend.lo, value);
    if dividend.hi == 0 {
      result.hi := 0;
      result.lo := dividend.lo / value;
      return;
    }
    DivideTwoWords(result, dividend, value);
  }

  /** The quotient of the high words, and of what they leave over together with the low word. */
  method DivideTwoWords(result: Uint128, dividend: Uint128, value: uint64)
    requires value > 0
    modifies result
    ensures result.hi == old(dividend.hi) / value
    ensures result.lo == ((old(dividend.hi) % value) * TWO_TO_64 + old(dividend.lo)) / value
  {
    var result_mask: uint64 := ShiftLeft(1, UINT64_BIT_COUNT - 1);
    var remainder := DivideHighWord(result, dividend, value);
    ghost var r0 := remainder.Value();
    RemainderBelow(remainder.hi, remainder.lo, value);
    StartsDividing(r0, value);
    var divisor := FirstDivisor(value);
    DivideLongRemainder(result, remainder, divisor, result_mask, value, r0);
  }

  /** The value shifted up as far as it may be needed. */
  method FirstDivisor(value: uint64) returns (divisor: Uint128)
    ensures fresh(divisor) && divisor.Value() == value * TWO_TO_64 / 2
  {
    divisor := new Uint128(value, 0);
    assert divisor.Value() == value * TWO_TO_64 && Pow2(1) == 2;
    ShiftRight128(divisor, 1);
  }

  lemma RemainderBelow(hi: uint64, lo: uint64, v: uint64)
    ensures hi < v ==> hi * TWO_TO_64 + lo < v * TWO_TO_64
  {
    MulOrder(TWO_TO_64, v, hi + 1);
  }

  /** Does manual division while the remainder is larger than one word, then proceeds with one word. */
  method DivideLongRemainder(result: Uint128, remainder: Uint128, divisor: Uint128, mask: uint64, value: uint64,
                             ghost r0: nat)
    requires result != remainder && result != divisor && remainder != divisor
    requires value > 0 && mask == Pow2(63)
    requires remainder.Value() == r0 && Dividing(r0, value, r0, divisor.Value(), result.lo, 63)
    modifies result`lo, remainder, divisor
    ensures result.lo == r0 / value
  {
    var result_mask := mask;
    ghost var k: nat := 63;
    while remainder.hi != 0
      invariant result_mask == Pow2(k)
      invariant Dividing(r0, value, remainder.Value(), divisor.Value(), result.lo, k)
      decreases remainder.Value()
    {
      result_mask, k := ShiftDivisorDown(result.lo, remainder, divisor, result_mask, value, r0, k);
      SubtractDivisor(result, remainder, divisor, result_mask, value, r0, k);
    }
    FinalStep(r0, value, remainder.Value(), divisor.Value(), result.lo, k);
    result.lo := BitOr(result.lo, remainder.lo / value);
  }

  /** One quotient bit. */
  method SubtractDivisor(result: Uint128, remainder: Uint128, divisor: Uint128, mask: uint64, value: uint64,
                         ghost r0: nat, ghost k: nat)
    requires result != remainder && result != divisor && remainder != divisor
    requires value > 0 && mask == Pow2(k)
    requires Dividing(r0, value, remainder.Value(), divisor.Value(), result.lo, k)
    requires divisor.Value() <= remainder.Value()
    modifies result`lo, remainder
    ensures remainder.Value() < old(remainder.Value())
    ensures Dividing(r0, value, remainder.Value(), divisor.Value(), result.lo, k)
  {
    SubtractingStep(r0, value, remainder.Value(), divisor.Value(), result.lo, k);
    DecrementWithinRange(remainder.Value(), divisor.Value());
    Decrement128(remainder, divisor);
    result.lo := BitOr(result.lo, mask);
  }

  lemma DecrementWithinRange(a: int, b: int)
    requires 0 <= b <= a < TWO_TO_128
    ensures (a - b) % TWO_TO_128 == a - b
  {
    DivModUnique(a - b, TWO_TO_128, 0, a - b);
  }

  /** The inner loop: halves divisor and mask until the divisor is not above the remainder. */
  method ShiftDivisorDown(quotient: uint64, remainder: Uint128, divisor: Uint128, mask: uint64, value: uint64,
                          ghost r0: nat, ghost k0: nat)
      returns (result_mask: uint64, ghost k: nat)
    requires remainder != divisor && remainder.Value() >= TWO_TO_64 && mask == Pow2(k0)
    requires Dividing(r0, value, remainder.Value(), divisor.Value(), quotient, k0)
    modifies divisor
    ensures result_mask == Pow2(k) && divisor.Value() <= remainder.Value()
    ensures Dividing(r0, value, remainder.Value(), divisor.Value(), quotient, k)
  {
    result_mask, k := mask, k0;
    var c := Compare(remainder, divisor);
    while c < 0
      invariant result_mask == Pow2(k)
      invariant Dividing(r0, value, remainder.Value(), divisor.Value(), quotient, k)
      invariant c < 0 <==> remainder.Value() < divisor.Value()
      decreases k
    {
      HalvingStep(r0, value, remainder.Value(), divisor.Value(), quotient, k);
      assert Pow2(1) == 2;
      ShiftRight128(divisor, 1);
      result_mask := ShiftRight(result_mask, 1);
      k := k - 1;
      c := Compare(remainder, divisor);
    }
  }

  // ----- Averages of trends

  /** A product divided by a nonzero factor, in place, gives back the other factor. */
  method MultiplyThenDivide(result: Uint128, value: uint64, factor: uint64)
    requires factor > 0
    modifies result
    ensures result.hi == 0 && result.lo == value
  {
    Multiply64(result, value, factor);
    DivModUnique(value * factor, factor, value, 0);
    Divide64(result, result, factor);
    WordOf(result.hi, result.lo);
  }

  lemma WordOf(hi: uint64, lo: uint64)
    ensures hi * TWO_TO_64 + lo < TWO_TO_64 <==> hi == 0
  {
  }

  lemma QuotientAtMost(total: nat, n: nat, top: nat)
    requires n > 0 && total <= n * top
    ensures 0 <= total / n <= top
  {
    var q := total / n;
    assert total == n * q + total % n;
    MulOrder(n, q, top + 1);
    Distribute(n, top, 1);
  }

  /** Adding num values of at most top with this average keeps the sum below its bound, and the average below top. */
  lemma AverageFits(sum: nat, count: nat, num: nat, average: nat, top: nat)
    requires sum <= count * top && average <= top && count + num > 0
    ensures num * average >= 0 && sum + num * average <= (count + num) * top
    ensures 0 <= (sum + num * average) / (count + num) <= top
  {
    MulOrder(num, 0, average);
    MulOrder(num, average, top);
    Distribute(top, count, num);
    QuotientAtMost(sum + num * average, count + num, top);
  }

  lemma MergeFits(sum: nat, count: uint64, num: uint64, average: uint64)
    requires sum <= count * (TWO_TO_64 - 1) && 0 < count + num < TWO_TO_64
    ensures 0 <= num * average && sum + num * average <= (count + num) * (TWO_TO_64 - 1)
    ensures sum + num * average < TWO_TO_128
    ensures 0 <= (sum + num * average) / (count + num) < TWO_TO_64
  {
    AverageFits(sum, count, num, average, TWO_TO_64 - 1);
    MulOrder(TWO_TO_64 - 1, count + num, TWO_TO_64);
  }

  /** Merges num values with a known average into the sum of count values. The sum stays exact and the new average
      fits in one word. */
  method MergeTrend(sum: Uint128, count: uint64, num: uint64, average: uint64) returns (merged: uint64)
    requires sum.Value() <= count * (TWO_TO_64 - 1) && 0 < count + num < TWO_TO_64
    modifies sum
    ensures sum.Value() == old(sum.Value()) + num * average <= (count + num) * (TWO_TO_64 - 1)
    ensures merged == sum.Value() / (count + num)
  {
    ghost var s := sum.Value();
    MergeFits(s, count, num, average);
    var avg := new Uint128(0, 0);
    Multiply64(avg, num, average);
    Increment128(sum, avg);
    assert sum.Value() == (s + num * average) % TWO_TO_128;
    DivModUnique(s + num * average, TWO_TO_128, 0, s + num * average);
    Divide64(avg, sum, count + num);
    WordOf(avg.hi, avg.lo);
    merged := avg.lo;
  }
}
