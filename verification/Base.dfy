/** Values shared by every module: bytes, results, error codes and the
    machine-integer arithmetic of the library. */
module Base {

  type byte = x: int | 0 <= x < 256

  const TWO_16: nat := 0x1_0000
  const TWO_31: nat := 0x8000_0000
  const TWO_32: nat := 0x1_0000_0000
  const TWO_63: nat := 0x8000_0000_0000_0000
  const TWO_64: nat := 0x1_0000_0000_0000_0000

  datatype Option<+T> = None | Some(value: T)

  /** The categories of failure that the modelled operations report. */
  datatype ErrorCode = InvalidArgument | Unsupported | InvalidBinary | OutOfRange

  /** CPU architectures; one enumeration serves both parsers. */
  datatype Architecture = X86 | X86_64 | Arm | Arm64 | RiscV32 | RiscV64 | Other

  datatype Result<+T, +E> = Ok(value: T) | Err(error: E) {
    predicate IsFailure() {
      Err?
    }

    function PropagateFailure<U>(): Result<U, E>
      requires Err?
    {
      Err(error)
    }

    function Extract(): T
      requires Ok?
    {
      value
    }

    function GetOr(default: T): T {
      if Ok? then value else default
    }
  }

  // ----- unsigned arithmetic, wrapping as in the source -----

  function Add64(a: nat, b: nat): (r: nat)
    requires a < TWO_64 && b < TWO_64
    ensures r < TWO_64
  {
    if a + b < TWO_64 then a + b else a + b - TWO_64
  }

  function Add32(a: nat, b: nat): (r: nat)
    requires a < TWO_32 && b < TWO_32
    ensures r < TWO_32
  {
    if a + b < TWO_32 then a + b else a + b - TWO_32
  }

  function Mul64(a: nat, b: nat): nat { (a * b) % TWO_64 }

  function Mul32(a: nat, b: nat): nat { (a * b) % TWO_32 }

  lemma AdditionIsModular(a: nat, b: nat)
    ensures a < TWO_32 && b < TWO_32 ==> Add32(a, b) == (a + b) % TWO_32
    ensures a < TWO_64 && b < TWO_64 ==> Add64(a, b) == (a + b) % TWO_64
  {
  }

  lemma Mul64Bound(a: nat, b: nat)
    ensures 0 <= a * b && Mul64(a, b) <= a * b
    ensures a * b < TWO_64 ==> Mul64(a, b) == a * b
  {
  }

  lemma Mul32Bound(a: nat, b: nat)
    ensures 0 <= a * b
    ensures a * b < TWO_32 ==> Mul32(a, b) == a * b
  {
  }

  /** Field offsets inside a record never wrap once the record starts in the buffer. */
  lemma NoWrap64(size: nat, off: nat)
    requires size < TWO_63
    ensures off <= size ==> forall k: nat :: k <= 0x1_0000 ==> Add64(off, k) == off + k
  {
  }

  // ----- results of list-producing stages -----

  /** Puts already produced elements in front of the outcome of the rest. */
  function Prepend<T, E>(done: seq<T>, rest: Result<seq<T>, E>): Result<seq<T>, E> {
    match rest
    case Ok(more) => Ok(done + more)
    case Err(e) => Err(e)
  }

  lemma PrependNothing<T, E>(rest: Result<seq<T>, E>)
    ensures Prepend([], rest) == rest
  {
    if rest.Ok? {
      assert [] + rest.value == rest.value;
    }
  }

  lemma PrependToNothing<T, E>(done: seq<T>, rest: Result<seq<T>, E>)
    requires rest == Ok([])
    ensures Prepend(done, rest) == Ok(done)
  {
    assert done + [] == done;
  }

  lemma PrependSnoc<T, E>(done: seq<T>, x: T, rest: Result<seq<T>, E>)
    ensures Prepend(done, Prepend([x], rest)) == Prepend(done + [x], rest)
  {
    if rest.Ok? {
      assert done + ([x] + rest.value) == (done + [x]) + rest.value;
    }
  }

  lemma DivModUnique(v: nat, m: nat, q: nat, r: nat)
    requires m > 0 && v == m * q + r && r < m
    ensures v / m == q && v % m == r
  {
    var k := v / m - q;
    assert m * k == r - v % m;
    MulMonotone(m, k, 1);
    MulMonotone(m, -1, k);
  }

  lemma MulMonotone(m: nat, x: int, y: int)
    ensures x >= y ==> m * x >= m * y
  {
    if x >= y {
      assert m * x == m * y + m * (x - y);
    }
  }

  /** Index arithmetic of a strided table: entry i + 1 starts one stride later. */
  lemma NextEntry(i: nat, stride: nat)
    ensures (i + 1) * stride == i * stride + stride
  {
  }

  lemma EntriesBefore(i: nat, n: nat, stride: nat)
    requires i < n
    ensures 0 <= i * stride && i * stride + stride <= n * stride
  {
    MulMonotone(stride, n, i + 1);
    MulMonotone(stride, i, 0);
    assert stride * (i + 1) == stride * i + stride;
  }
}
