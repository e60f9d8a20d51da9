/** Fixed-width integer arithmetic used by the constant-propagation pass.

    Integers are unbounded in Dafny, so the 32- and 64-bit wrap-around of the
    C++ unsigned types, the reinterpretation of a 32-bit pattern as a signed
    value, and the shifts and masks of the bit-field extractions are written
    out here explicitly. Each "as written" definition mirrors the source's
    C++ expression; each is paired with an independent definition of what the
    operation means and a lemma connecting the two.
 */
module Arith {

  const TWO31: int := 0x8000_0000
  const TWO32: int := 0x1_0000_0000
  const TWO64: int := 0x1_0000_0000_0000_0000

  type u32 = x: nat | x < 0x1_0000_0000
  type u64 = x: nat | x < 0x1_0000_0000_0000_0000

  function Pow2(n: nat): (r: nat)
    ensures r >= 1
  {
    if n == 0 then 1 else Pow2(n - 1) + Pow2(n - 1)
  }

  /** Unsigned 32-bit addition, subtraction and multiplication wrap modulo 2^32. */
  function AddU32(a: int, b: int): u32 { (a + b) % TWO32 }
  function SubU32(a: int, b: int): u32 { (a - b) % TWO32 }
  function MulU32(a: int, b: int): u32 { (a * b) % TWO32 }
  function AddU64(a: int, b: int): u64 { (a + b) % TWO64 }

  /** `static_cast<s32>` of a 32-bit pattern: two's complement reading. */
  function ToS32(x: u32): (r: int)
    ensures -TWO31 <= r < TWO31
    ensures r % TWO32 == x
  {
    if x >= TWO31 then x - TWO32 else x
  }

  /** `x << n` on a u32 for n < 32: bits shifted out at the top are lost. */
  function ShlU32(x: int, n: nat): u32
    requires n < 32
  {
    (x * Pow2(n)) % TWO32
  }

  /** Bitwise AND of two naturals, bit by bit from the least significant end. */
  function BitAnd(a: nat, b: nat): nat
    decreases a
  {
    if a == 0 || b == 0 then 0
    else 2 * BitAnd(a / 2, b / 2) + (if a % 2 == 1 && b % 2 == 1 then 1 else 0)
  }

  // ---------------------------------------------------------------------------
  // Reference meaning of the two bit-field extractions

  /** The `count`-bit field of `base` that starts at bit `shift`. */
  function BitField(base: nat, shift: nat, count: nat): (r: nat)
    ensures r < Pow2(count)
  {
    (base / Pow2(shift)) % Pow2(count)
  }

  /** Reads a `count`-bit field as a two's-complement number. */
  function SignExtend(field: nat, count: nat): (r: int)
    requires 1 <= count
    requires field < Pow2(count)
    ensures -(Pow2(count - 1) as int) <= r < Pow2(count - 1)
  {
    if field >= Pow2(count - 1) then field - Pow2(count) else field
  }

  // ---------------------------------------------------------------------------
  // The extractions as the immediate folder computes them

  /** `(base >> shift) & ((1U << count) - 1)`, for the counts where `1U << count`
      is defined (count < 32). */
  function UExtractAsWritten(base: u32, shift: nat, count: nat): (r: u32)
    requires count < 32
    ensures r == BitField(base, shift, count)
  {
    var r := BitAnd(base / Pow2(shift), Pow2(count) - 1);
    assert r == BitField(base, shift, count) by { UExtractIsBitField(base, shift, count); }
    assert Pow2(count) <= TWO31 by { Pow2Monotone(count, 31); Pow2Values(); }
    r
  }

  /** `static_cast<u32>(static_cast<s32>(base << left_shift) >> (32 - count))`
      with `left_shift == 32 - shift - count`; the left shift of the signed base
      wraps and the right shift of a negative number is arithmetic (floor). */
  function SExtractAsWritten(base: u32, shift: nat, count: nat): (r: u32)
    requires 1 <= count && shift + count <= 32
    ensures r == SignExtend(BitField(base, shift, count), count) % TWO32
  {
    SExtractIsSignExtendedField(base, shift, count);
    var leftShift := 32 - (shift + count);
    var shifted := (base * Pow2(leftShift)) % TWO32;
    var back := ToS32(shifted) / Pow2(32 - count);
    back % TWO32
  }

  // ---------------------------------------------------------------------------
  // Lemmas

  lemma {:induction false} Pow2Values()
    ensures Pow2(16) == 0x1_0000
    ensures Pow2(31) == TWO31
    ensures Pow2(32) == TWO32
  {
    assert Pow2(1) == 2;
    assert Pow2(2) == 4;
    assert Pow2(3) == 8;
    assert Pow2(4) == 16;
    Pow2Add(4, 4);
    Pow2Add(8, 8);
    Pow2Add(16, 15);
    Pow2Add(16, 16);
  }

  lemma {:induction false} Pow2Add(a: nat, b: nat)
    ensures Pow2(a + b) == Pow2(a) * Pow2(b)
  {
    if a > 0 {
      Pow2Add(a - 1, b);
      assert Pow2(a + b) == Pow2(a - 1 + b) + Pow2(a - 1 + b);
    }
  }

  lemma {:induction false} Pow2Monotone(a: nat, b: nat)
    requires a <= b
    ensures Pow2(a) <= Pow2(b)
    decreases b
  {
    if a < b {
      Pow2Monotone(a, b - 1);
    }
  }

  /** Euclidean division is unique: any decomposition with a remainder in
      range is the one `/` and `%` compute. */
  lemma {:induction false} DivModUnique(a: int, m: int, q: int, r: int)
    requires m > 0
    requires 0 <= r < m
    requires a == q * m + r
    ensures a / m == q
    ensures a % m == r
  {
    var q', r' := a / m, a % m;
    assert q' * m + r' == q * m + r;
    if q' > q {
      MulDistSub(q', q, m);
      MulAtLeast(q' - q, m);
    } else if q' < q {
      MulDistSub(q, q', m);
      MulAtLeast(q - q', m);
    }
  }

  lemma {:induction false} MulDistSub(x: int, y: int, m: int)
    ensures (x - y) * m == x * m - y * m
  {
  }

  lemma {:induction false} MulAtLeast(d: int, m: int)
    requires d >= 1 && m > 0
    ensures d * m >= m
  {
    MulDistSub(d, 1, m);
    assert (d - 1) * m >= 0;
  }

  lemma {:induction false} ModOfMultiplePlus(q: int, m: int, x: int)
    requires m > 0
    ensures (q * m + x) % m == x % m
  {
    DivModUnique(q * m + x, m, q + x / m, x % m);
  }

  lemma {:induction false} ModAdd(a: int, b: int, m: int)
    requires m > 0
    ensures (a % m + b % m) % m == (a + b) % m
  {
    ModOfMultiplePlus(a / m + b / m, m, a % m + b % m);
    assert a + b == (a / m + b / m) * m + (a % m + b % m);
  }

  lemma {:induction false} ModAddInner(a: int, x: int, m: int)
    requires m > 0
    ensures (a + x % m) % m == (a + x) % m
  {
    ModOfMultiplePlus(x / m, m, a + x % m);
    assert a + x == (x / m) * m + (a + x % m);
  }

  /** Wrap-around addition regroups: `a + (b + c) == b + (a + c)`. */
  lemma {:induction false} AddU32Regroup(a: int, b: int, c: int)
    ensures AddU32(a, AddU32(b, c)) == AddU32(b, AddU32(a, c))
  {
    ModAddInner(a, b + c, TWO32);
    ModAddInner(b, a + c, TWO32);
  }

  lemma {:induction false} AddU64Regroup(a: int, b: int, c: int)
    ensures AddU64(a, AddU64(b, c)) == AddU64(b, AddU64(a, c))
  {
    ModAddInner(a, b + c, TWO64);
    ModAddInner(b, a + c, TWO64);
  }

  /** Subtracting what was added gives back the u32 operand: `(x + c) - c == x`. */
  lemma {:induction false} SubAddCancel(x: u32, c: int)
    ensures SubU32(AddU32(x, c), c) == x
  {
    ModAddInner(-c, x + c, TWO32);
  }

  lemma {:induction false} ModMulLeft(a: int, k: int, m: int)
    requires m > 0
    ensures ((a % m) * k) % m == (a * k) % m
  {
    assert a * k == ((a / m) * k) * m + (a % m) * k;
    ModOfMultiplePlus((a / m) * k, m, (a % m) * k);
  }

  lemma {:induction false} HalveMod(x: nat, k: nat)
    requires k >= 1
    ensures x % (2 * k) == 2 * ((x / 2) % k) + x % 2
  {
    var h := x / 2;
    assert x == 2 * h + x % 2;
    assert h == (h / k) * k + h % k;
    assert x == (h / k) * (2 * k) + (2 * (h % k) + x % 2);
    DivModUnique(x, 2 * k, h / k, 2 * (h % k) + x % 2);
  }

  /** Masking with `2^c - 1` keeps exactly the low `c` bits. */
  lemma {:induction false} BitAndLowMask(x: nat, c: nat)
    ensures BitAnd(x, Pow2(c) - 1) == x % Pow2(c)
    decreases c
  {
    if c == 0 || x == 0 {
    } else {
      var m, h := Pow2(c) - 1, Pow2(c - 1);
      LowMaskHalves(c);
      BitAndOddStep(x, m);
      BitAndLowMask(x / 2, c - 1);
      HalveMod(x, h);
      assert Pow2(c) == 2 * h;
    }
  }

  lemma {:induction false} BitAndOddStep(x: nat, m: nat)
    requires x != 0 && m % 2 == 1
    ensures BitAnd(x, m) == 2 * BitAnd(x / 2, m / 2) + x % 2
  {
  }

  lemma {:induction false} LowMaskHalves(c: nat)
    requires c >= 1
    ensures Pow2(c) - 1 != 0 && (Pow2(c) - 1) % 2 == 1
    ensures (Pow2(c) - 1) / 2 == Pow2(c - 1) - 1
  {
    var h := Pow2(c - 1);
    assert Pow2(c) - 1 == 2 * (h - 1) + 1;
  }

  /** The unsigned extraction computes the bit field. */
  lemma {:induction false} UExtractIsBitField(base: u32, shift: nat, count: nat)
    requires count < 32
    ensures BitAnd(base / Pow2(shift), Pow2(count) - 1) == BitField(base, shift, count)
  {
    BitAndLowMask(base / Pow2(shift), count);
  }

  lemma {:induction false} MulLeMono(x: int, y: int, k: int)
    requires x <= y && k >= 0
    ensures x * k <= y * k
  {
    MulDistSub(y, x, k);
    MulNonNeg(y - x, k);
  }

  lemma {:induction false} MulNonNeg(x: int, k: int)
    requires x >= 0 && k >= 0
    ensures x * k >= 0
  {
  }

  lemma {:induction false} Regroup(g: int, b: int, f: int, a: int)
    ensures (g * b + f) * a == g * (a * b) + f * a
  {
  }

  /** Splitting the remainder modulo `a * b` into the remainder modulo `a`
      and the next digit in base `b`. */
  lemma {:induction false} ModSplit(x: int, a: int, b: int)
    requires x >= 0 && a >= 1 && b >= 1
    ensures x % (a * b) == ((x / a) % b) * a + x % a
  {
    var h := x / a;
    var f := h % b;
    var g := h / b;
    var r := x % a;
    assert x == h * a + r;
    assert h == g * b + f;
    Regroup(g, b, f, a);
    assert x == g * (a * b) + (f * a + r);
    MulLeMono(f, b - 1, a);
    MulDistSub(b, 1, a);
    assert f * a + r < a * b;
    DivModUnique(x, a * b, g, f * a + r);
  }

  lemma {:induction false} DivPow2Split(x: nat, s: nat, c: nat)
    ensures x % Pow2(s + c) == ((x / Pow2(s)) % Pow2(c)) * Pow2(s) + x % Pow2(s)
  {
    Pow2Add(s, c);
    ModSplit(x, Pow2(s), Pow2(c));
  }

  /** Shifting left by `log2(lp)` and wrapping modulo `q * lp` keeps the low
      digits of `base` modulo `q`. */
  lemma {:induction false} WrapShift(base: int, q: int, lp: int)
    requires base >= 0 && q >= 1 && lp >= 1
    ensures (base * lp) % (q * lp) == (base % q) * lp
  {
    var m := base % q;
    assert base == (base / q) * q + m;
    Regroup(base / q, q, m, lp);
    assert base * lp == (base / q) * (q * lp) + m * lp;
    MulLeMono(m, q - 1, lp);
    MulDistSub(q, 1, lp);
    DivModUnique(base * lp, q * lp, base / q, m * lp);
  }

  /** Reading `f * w + low` (with `low < w`) as a two's-complement number of
      width `p * w` and dividing by `w` yields the top digit `f` read as a
      two's-complement number of width `p`. */
  lemma {:induction false} SignedTopDigit(f: int, low: int, p: int, h: int, w: int)
    requires p == h + h && h >= 1 && w >= 1
    requires 0 <= f < p && 0 <= low < w
    requires TWO32 == p * w && TWO31 == h * w
    ensures 0 <= f * w + low < TWO32
    ensures var sh := f * w + low;
            (if sh >= TWO31 then sh - TWO32 else sh) / w == (if f >= h then f - p else f)
  {
    MulLeMono(f, p - 1, w);
    MulDistSub(p, 1, w);
    MulNonNeg(f, w);
    var sh := f * w + low;
    if f >= h {
      MulLeMono(h, f, w);
      MulDistSub(f, p, w);
      DivModUnique(sh - TWO32, w, f - p, low);
    } else {
      MulLeMono(f, h - 1, w);
      MulDistSub(h, 1, w);
      DivModUnique(sh, w, f, low);
    }
  }

  lemma {:induction false} ShiftLayout(base: int, f: int, r: int, ps: int, pl: int, psc: int, w: int, m: int)
    requires base >= 0 && ps >= 1 && pl >= 1 && psc >= 1
    requires m == psc * pl && w == ps * pl
    requires 0 <= r < ps && base % psc == f * ps + r
    ensures (base * pl) % m == f * w + r * pl
    ensures 0 <= r * pl < w
  {
    WrapShift(base, psc, pl);
    Regroup(f, ps, r, pl);
    MulLeMono(r, ps - 1, pl);
    MulDistSub(ps, 1, pl);
    MulNonNeg(r, pl);
  }

  /** `base << (32 - shift - count)`, wrapped to 32 bits, holds the field in
      its top `count` bits above a remainder smaller than `2^(32 - count)`. */
  lemma {:induction false} ShiftedFieldLayout(base: u32, shift: nat, count: nat) returns (low: int)
    requires 1 <= count && shift + count <= 32
    ensures 0 <= low < Pow2(32 - count)
    ensures (base * Pow2(32 - (shift + count))) % TWO32
         == BitField(base, shift, count) * Pow2(32 - count) + low
  {
    var s, c := shift, count;
    var L := 32 - (s + c);
    var ps, pl, psc, w := Pow2(s), Pow2(L), Pow2(s + c), Pow2(32 - c);
    assert TWO32 == psc * pl by { Pow2Values(); Pow2Add(s + c, L); }
    assert w == ps * pl by { Pow2Add(s, L); }
    DivPow2Split(base, s, c);
    ShiftLayout(base, BitField(base, s, c), base % ps, ps, pl, psc, w, TWO32);
    low := (base % ps) * pl;
  }

  lemma {:induction false} SignWidths(c: nat)
    requires 1 <= c <= 32
    ensures TWO32 == Pow2(c) * Pow2(32 - c)
    ensures TWO31 == Pow2(c - 1) * Pow2(32 - c)
    ensures Pow2(c) == Pow2(c - 1) + Pow2(c - 1)
  {
    Pow2Values();
    Pow2Add(c, 32 - c);
    Pow2Add(c - 1, 32 - c);
  }

  /** The signed extraction sign-extends the bit field. */
  lemma {:induction false} SExtractIsSignExtendedField(base: u32, shift: nat, count: nat)
    requires 1 <= count && shift + count <= 32
    ensures (ToS32((base * Pow2(32 - (shift + count))) % TWO32) / Pow2(32 - count)) % TWO32
         == SignExtend(BitField(base, shift, count), count) % TWO32
  {
    var c := count;
    var pc, h, w := Pow2(c), Pow2(c - 1), Pow2(32 - c);
    SignWidths(c);
    var f := BitField(base, shift, count);
    var low := ShiftedFieldLayout(base, shift, count);
    var shifted := (base * Pow2(32 - (shift + count))) % TWO32;
    assert shifted == f * w + low;
    // The sign bit of the wrapped value is the top bit of the field.
    SignedTopDigit(f, low, pc, h, w);
    assert ToS32(shifted) / w == SignExtend(f, c);
  }

  lemma {:induction false} XmadArithmetic(a: int, b: int, hi: int, lo: int, k: int, m: int)
    requires k >= 1 && m >= 1
    requires a == hi * k + lo
    ensures ((((hi * b) % m) * k) % m + (lo * b) % m) % m == (a * b) % m
  {
    ModMulLeft(hi * b, k, m);
    ModAdd(hi * b * k, lo * b, m);
    assert a * b == hi * b * k + lo * b;
  }

  /** The XMAD identity: multiplying the two 16-bit halves of `a` by `b`
      separately, shifting the high product up by 16 and adding, gives the
      full 32-bit product. */
  lemma {:induction false} XmadProduct(a: u32, b: u32)
    ensures AddU32(ShlU32(MulU32(BitField(a, 16, 16), b), 16), MulU32(BitField(a, 0, 16), b))
         == MulU32(a, b)
  {
    var k := Pow2(16);
    var hi := BitField(a, 16, 16);
    var lo := BitField(a, 0, 16);
    assert k == 0x1_0000 by { Pow2Values(); }
    assert a == hi * k + lo by {
      Pow2Values();
      DivPow2Split(a, 16, 16);
      assert Pow2(0) == 1;
    }
    XmadArithmetic(a, b, hi, lo, k, TWO32);
    var hp := MulU32(hi, b);
    assert ShlU32(hp, 16) == (hp * k) % TWO32;
  }
}
