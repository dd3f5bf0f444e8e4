/** Overflow-aware address arithmetic on 64-bit values. */
module Address {
  import opened Base

  type u64 = x: int | 0 <= x < 0x1_0000_0000_0000_0000

  /** std::ptrdiff_t */
  type i64 = x: int | -0x8000_0000_0000_0000 <= x < 0x8000_0000_0000_0000

  const NULL: u64 := 0

  const MIN_I64: i64 := -0x8000_0000_0000_0000

  /** add(size_t) */
  function AddUnsigned(value: u64, offset: u64): u64 {
    if value > TWO_64 - 1 - offset then NULL else value + offset
  }

  /** add(ptrdiff_t): the magnitude of a negative offset is computed without
      negating the most negative value. */
  function AddSigned(value: u64, offset: i64): u64 {
    if offset >= 0 then AddUnsigned(value, offset)
    else
      var magnitude: u64 := -(offset + 1) + 1;
      if value < magnitude then NULL else value - magnitude
  }

  /** The conversion of a 64-bit unsigned value to ptrdiff_t. */
  function ToSigned(x: u64): i64 {
    if x < TWO_63 then x else x - TWO_64
  }

  function Difference(value: u64, other: u64): i64 {
    ToSigned((value - other) % TWO_64)
  }

  // ----- bitwise operators, bit by bit -----

  function BitAnd(x: nat, y: nat): (r: nat)
    ensures r <= x
  {
    if x == 0 || y == 0 then 0
    else 2 * BitAnd(x / 2, y / 2) + (if x % 2 == 1 && y % 2 == 1 then 1 else 0)
  }

  function BitNot(x: u64): u64 {
    TWO_64 - 1 - x
  }

  function AlignDown(value: u64, alignment: u64): u64 {
    if alignment == 0 then NULL
    else BitAnd(value, BitNot(alignment - 1))
  }

  function AlignUp(value: u64, alignment: u64): u64 {
    if alignment == 0 then NULL
    else
      var mask := alignment - 1;
      if value > TWO_64 - 1 - mask then NULL
      else BitAnd(value + mask, BitNot(mask))
  }

  /** The address object, for the two operators that reassign it. */
  class Address {
    var value: u64

    constructor (value: u64)
      ensures this.value == value
    {
      this.value := value;
    }

    method PlusAssign(offset: i64)
      modifies this
      ensures value == if 0 <= old(value) + offset < TWO_64 then old(value) + offset else 0
    {
      value := AddSigned(value, offset);
    }

    /** Negating the most negative offset is undefined in the source. */
    method MinusAssign(offset: i64)
      requires offset != MIN_I64
      modifies this
      ensures value == if 0 <= old(value) - offset < TWO_64 then old(value) - offset else 0
    {
      value := AddSigned(value, -offset);
    }
  }

  // ----- what the arithmetic means -----

  /** Both additions are exact whenever the true sum is an address, else null. */
  lemma AddExact(value: u64, offset: i64, size: u64)
    ensures AddSigned(value, offset) == if 0 <= value + offset < TWO_64 then value + offset else 0
    ensures AddUnsigned(value, size) == if value + size < TWO_64 then value + size else 0
  {
  }

  /** Adding back a difference: b.difference(a) added to a is b exactly when
      the true difference is a ptrdiff_t, and null otherwise. */
  lemma AddBackDifference(a: u64, b: u64)
    ensures AddSigned(a, Difference(b, a)) ==
            if -0x8000_0000_0000_0000 <= b - a < 0x8000_0000_0000_0000 then b else 0
  {
    var d := b - a;
    if d < 0 {
      assert d % TWO_64 == d + TWO_64;
    } else {
      assert d % TWO_64 == d;
    }
  }

  /** An alignment of zero gives the null address. */
  lemma AlignByZero(value: u64)
    ensures AlignDown(value, 0) == 0 && AlignUp(value, 0) == 0
  {
  }

  function Pow2(k: nat): (p: nat)
    ensures p > 0
  {
    if k == 0 then 1 else 2 * Pow2(k - 1)
  }

  lemma {:induction false} Pow2Sum(j: nat, i: nat)
    ensures Pow2(j + i) == Pow2(j) * Pow2(i)
  {
    if i > 0 {
      Pow2Sum(j, i - 1);
      assert Pow2(j) * (2 * Pow2(i - 1)) == 2 * (Pow2(j) * Pow2(i - 1));
    }
  }

  lemma Pow2Monotone(j: nat, k: nat)
    requires j <= k
    ensures Pow2(j) <= Pow2(k)
    ensures Pow2(k) % Pow2(j) == 0
  {
    Pow2Sum(j, k - j);
    MulMonotone(Pow2(j), Pow2(k - j), 1);
    MultipleRemainder(Pow2(j), Pow2(k - j), 0);
  }

  lemma MultipleRemainder(m: nat, q: nat, r: nat)
    requires r < m
    ensures (m * q + r) % m == r
  {
    DivModUnique(m * q + r, m, q, r);
  }

  lemma Pow2Values()
    ensures Pow2(64) == TWO_64
  {
    assert Pow2(8) == 0x100;
    assert Pow2(16) == 0x100 * Pow2(8);
    assert Pow2(24) == 0x100 * Pow2(16);
    assert Pow2(32) == 0x100 * Pow2(24);
    assert Pow2(40) == 0x100 * Pow2(32);
    assert Pow2(48) == 0x100 * Pow2(40);
    assert Pow2(56) == 0x100 * Pow2(48);
    assert Pow2(64) == 0x100 * Pow2(56);
  }

  lemma {:induction false} AndAllOnes(x: nat, w: nat)
    requires x < Pow2(w)
    ensures BitAnd(x, Pow2(w) - 1) == x
  {
    if w > 0 && x > 0 {
      assert (Pow2(w) - 1) / 2 == Pow2(w - 1) - 1;
      assert (Pow2(w) - 1) % 2 == 1;
      AndAllOnes(x / 2, w - 1);
    }
  }

  /** Masking with the complement of 2^k - 1 clears the low k bits. */
  lemma {:induction false} AndHighMask(x: nat, k: nat, w: nat)
    requires k <= w && x < Pow2(w)
    ensures Pow2(k) <= Pow2(w)
    ensures BitAnd(x, Pow2(w) - Pow2(k)) == x - x % Pow2(k)
  {
    hide BitAnd;
    Pow2Monotone(k, w);
    if k == 0 {
      AndAllOnes(x, w);
    } else {
      var p, q := Pow2(k - 1), Pow2(w - 1);
      AndHighMask(x / 2, k - 1, w - 1);
      AndEvenMask(x, q - p);
      HalfRemainder(x, p);
      assert Pow2(w) - Pow2(k) == 2 * (q - p);
    }
  }

  lemma AndEvenMask(x: nat, h: nat)
    ensures BitAnd(x, 2 * h) == 2 * BitAnd(x / 2, h)
  {
    assert 2 * h / 2 == h && 2 * h % 2 == 0;
    if x > 0 && h > 0 {
      assert BitAnd(x, 2 * h) == 2 * BitAnd(x / 2, 2 * h / 2);
    }
  }

  lemma HalfRemainder(x: nat, p: nat)
    requires p > 0
    ensures x - x % (2 * p) == 2 * (x / 2 - (x / 2) % p)
  {
    var h := x / 2;
    var q, r := h / p, h % p;
    assert x == 2 * (p * q + r) + x % 2;
    assert 2 * (p * q) == (2 * p) * q;
    MultipleRemainder(2 * p, q, 2 * r + x % 2);
  }

  lemma MaskClears(x: u64, k: nat)
    requires k < 64
    ensures Pow2(k) < TWO_64 && TWO_64 % Pow2(k) == 0
    ensures BitAnd(x, BitNot(Pow2(k) - 1)) == x - x % Pow2(k)
  {
    Pow2Values();
    Pow2Monotone(k, 63);
    Pow2Monotone(k, 64);
    assert Pow2(64) == 2 * Pow2(63);
    AndHighMask(x, k, 64);
  }

  lemma AlignDownIsRemainder(value: u64, k: nat)
    requires k < 64
    ensures Pow2(k) < TWO_64
    ensures AlignDown(value, Pow2(k)) == value - value % Pow2(k)
  {
    MaskClears(value, k);
  }

  /** For every power-of-two alignment, align_down is the greatest multiple
      that is not above the address. */
  lemma AlignDownGreatest(value: u64, k: nat)
    requires k < 64
    ensures Pow2(k) < TWO_64
    ensures var r := AlignDown(value, Pow2(k));
            && r % Pow2(k) == 0 && r <= value
            && forall m: nat :: m % Pow2(k) == 0 && m <= value ==> m <= r
  {
    hide Pow2, BitAnd, AlignDown;
    AlignDownIsRemainder(value, k);
    var a, r := Pow2(k), AlignDown(value, Pow2(k));
    assert r == a * (value / a);
    MultipleRemainder(a, value / a, 0);
    forall m: nat | m % a == 0 && m <= value
      ensures m <= r
    {
      MultiplesApart(a, m, r, value);
    }
  }

  lemma MultiplesApart(a: nat, m: nat, r: nat, value: nat)
    requires a > 0 && m % a == 0 && r % a == 0 && m <= value && r <= value && value - r < a
    ensures m <= r
  {
    var i, j := m / a, r / a;
    assert m == a * i && r == a * j && a * (j + 1) == a * j + a;
    MulMonotone(a, i, j + 1);
    MulMonotone(a, j, i);
  }

  /** The least multiple of a that is not below value. */
  lemma LeastMultiple(value: nat, a: nat, up: nat)
    requires a > 0 && up == (value + (a - 1)) - (value + (a - 1)) % a
    ensures up % a == 0 && value <= up
    ensures forall m: nat :: m % a == 0 && value <= m ==> up <= m
  {
    var top := value + (a - 1);
    assert up == a * (top / a);
    MultipleRemainder(a, top / a, 0);
    forall m: nat | m % a == 0 && value <= m
      ensures up <= m
    {
      MultiplesApart(a, up, m, if m >= up then m else up);
    }
  }

  lemma AlignUpValue(value: u64, k: nat, a: nat, up: nat)
    requires k < 64 && a == Pow2(k) && a < TWO_64
    requires up == value + (a - 1) - (value + (a - 1)) % a
    ensures AlignUp(value, a) == if up < TWO_64 then up else NULL
  {
    var top := value + (a - 1);
    if top < TWO_64 {
      MaskClears(top, k);
    } else {
      MaskClears(value, k);
      LeastMultiple(value, a, up);
      MultiplesApart(a, TWO_64, up, top);
    }
  }

  /** ... and align_up is the least multiple that is not below it; it is null
      exactly when no such multiple is an address, or the address is null. */
  lemma AlignUpLeast(value: u64, k: nat)
    requires k < 64
    ensures Pow2(k) < TWO_64
    ensures var a, r := Pow2(k), AlignUp(value, Pow2(k));
            && (r == 0 <==> value == 0 || forall m: nat :: m % a == 0 && value <= m ==> m >= TWO_64)
            && (r != 0 ==> r % a == 0 && value <= r && forall m: nat :: m % a == 0 && value <= m ==> r <= m)
  {
    MaskClears(value, k);
    var a := Pow2(k);
    var up := value + (a - 1) - (value + (a - 1)) % a;
    AlignUpValue(value, k, a, up);
    LeastMultiple(value, a, up);
    if value == NULL {
      MultipleRemainder(a, 0, 0);
    }
  }
}
