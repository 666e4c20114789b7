/** Rust primitive types the converter relies on: fixed-width unsigned
    integers, `Option`, float values and the `as` casts between them. */
module RustPrim {

  type u8 = x: int | 0 <= x < 0x100
  type u32 = x: int | 0 <= x < 0x1_0000_0000
  type u64 = x: int | 0 <= x < 0x1_0000_0000_0000_0000
  type i64 = x: int | -0x8000_0000_0000_0000 <= x < 0x8000_0000_0000_0000

  const U8_MAX: u8 := 0xFF
  const U32_MAX: u32 := 0xFFFF_FFFF

  datatype Option<+T> = None | Some(value: T) {
    /** `Option::unwrap_or` */
    function GetOr(default: T): T {
      match this
      case Some(v) => v
      case None => default
    }
  }

  /** A fallible result: `Err` stands for the source's panics and error returns. */
  datatype Result<+T, +E> = Ok(value: T) | Err(error: E)

  /** The value of an `f32`: a finite number (its rounding to 24 bits is not
      modelled), one of the two infinities, or NaN. */
  datatype F32 = Num(value: real) | PosInf | NegInf | NaN

  /** Multiplication of an f32 by a positive finite constant. */
  function F32Scale(f: F32, c: real): F32
    requires c > 0.0
  {
    match f
    case Num(r) => Num(r * c)
    case _ => f
  }

  /** Rounding toward zero (`f32::trunc`, and the first step of every
      float-to-integer `as` cast). */
  function Trunc(r: real): (t: int)
    ensures r >= 0.0 ==> t as real <= r < t as real + 1.0
    ensures r < 0.0 ==> t as real - 1.0 < r <= t as real && t <= 0
  {
    if r >= 0.0 then r.Floor else -((-r).Floor)
  }

  /** `f64::fract`: the part of `r` after the point, with the sign of `r`. */
  function Fract(r: real): (f: real)
    ensures r >= 0.0 ==> 0.0 <= f < 1.0 && f == r - r.Floor as real
    ensures r < 0.0 ==> -1.0 < f <= 0.0
  {
    r - Trunc(r) as real
  }

  /** Clamps an integer into the range of `u32`. */
  function SaturateU32(i: int): (v: u32)
    ensures 0 <= i <= U32_MAX ==> v == i
    ensures i < 0 ==> v == 0
    ensures i > U32_MAX ==> v == U32_MAX
  {
    if i < 0 then 0 else if i > U32_MAX then U32_MAX else i
  }

  /** `x as u32` for a finite float `x`: round toward zero, then saturate. */
  function RealAsU32(r: real): (v: u32)
    ensures r < 1.0 ==> v == 0
    ensures 0.0 <= r < U32_MAX as real + 1.0 ==> v as real <= r < v as real + 1.0
    ensures r >= U32_MAX as real ==> v == U32_MAX
  {
    SaturateU32(Trunc(r))
  }

  /** `x as u8` for an f32 `x`: NaN becomes 0, values are rounded toward
      zero and saturate at 0 and 255. */
  function F32AsU8(f: F32): (v: u8)
    ensures f.NaN? || f.NegInf? ==> v == 0
    ensures f.PosInf? ==> v == U8_MAX
    ensures f.Num? && f.value < 1.0 ==> v == 0
    ensures f.Num? && f.value >= 255.0 ==> v == U8_MAX
    ensures f.Num? && 0.0 <= f.value < 256.0 ==> v as real <= f.value < v as real + 1.0
  {
    match f
    case NaN => 0
    case NegInf => 0
    case PosInf => U8_MAX
    case Num(r) =>
      var t := Trunc(r);
      if t < 0 then 0 else if t > U8_MAX then U8_MAX else t
  }

  /** `u32` subtraction of a debug build: `None` where Rust panics on underflow. */
  function CheckedSub(a: u32, b: u32): (r: Option<u32>)
    ensures r.Some? <==> b <= a
    ensures r.Some? ==> r.value + b == a
  {
    if b <= a then Some(a - b) else None
  }

  /** `u32` addition of a debug build: `None` where Rust panics on overflow. */
  function CheckedAdd(a: u32, b: u32): (r: Option<u32>)
    ensures r.Some? <==> a + b <= U32_MAX
    ensures r.Some? ==> r.value == a + b
  {
    if a + b <= U32_MAX then Some(a + b) else None
  }

  /** `u32` multiplication of a debug build: `None` where Rust panics on overflow. */
  function CheckedMul(a: u32, b: u32): (r: Option<u32>)
    ensures r.Some? <==> a * b <= U32_MAX
    ensures r.Some? ==> r.value == a * b
  {
    if a * b <= U32_MAX then Some(a * b) else None
  }

  /** Checked addition against the release build's wrap-around sum: it
      succeeds exactly when wrapping changes nothing, and on overflow the
      wrapped sum is smaller than either operand. */
  lemma CheckedAddWraps(a: u32, b: u32)
    ensures CheckedAdd(a, b).Some? <==> (a + b) % 0x1_0000_0000 == a + b
    ensures CheckedAdd(a, b).None? ==> (a + b) % 0x1_0000_0000 < a && (a + b) % 0x1_0000_0000 < b
  {
    if a + b > U32_MAX {
      assert (a + b) % 0x1_0000_0000 == a + b - 0x1_0000_0000;
    }
  }

  /** Checked multiplication against the release build's wrap-around
      product `p % 2^32` (the product `p` passed in named): it succeeds
      exactly when wrapping changes nothing, and on overflow dividing the
      wrapped product by `a` does not give back `b`. */
  lemma CheckedMulWraps(a: u32, b: u32, p: int)
    requires p == a * b
    ensures CheckedMul(a, b).Some? <==> p % 0x1_0000_0000 == p
    ensures CheckedMul(a, b).None? ==> a != 0 && (p % 0x1_0000_0000) / a != b
  {
    var w := p % 0x1_0000_0000;
    if p > U32_MAX && a != 0 {
      DivLowerBound(w, a, a * (w / a));
    }
  }

  /** `a * (w / a) <= w`, the product passed in named. */
  lemma DivLowerBound(w: nat, a: int, x: int)
    requires a > 0 && x == a * (w / a)
    ensures x <= w
  {
  }

  /** `v as i32` for a `u32` value: the same 32 bits read as two's complement. */
  function U32AsI32(v: u32): (r: int)
    ensures v < 0x8000_0000 ==> r == v
    ensures v >= 0x8000_0000 ==> r < 0 && r + 0x1_0000_0000 == v
  {
    if v < 0x8000_0000 then v else v - 0x1_0000_0000
  }

  // Facts about integer products, each product passed in as a named value
  // so that the solver's reasoning at the call sites stays linear.

  lemma MulMonotoneInt(a: int, b: int, n: int, x: int, y: int)
    requires a <= b && n >= 0 && x == n * a && y == n * b
    ensures x <= y
  {
  }

  lemma MulSucc(a: int, n: int, x: int, y: int)
    requires x == n * a && y == n * (a + 1)
    ensures y == x + n
  {
  }

  /** 2 to the power `k`. */
  function Pow2(k: nat): (p: nat)
    ensures p >= 1
  {
    if k == 0 then 1 else 2 * Pow2(k - 1)
  }

  lemma {:induction false} Pow2Monotone(j: nat, k: nat)
    requires j <= k
    ensures Pow2(j) <= Pow2(k)
    decreases k
  {
    if j < k {
      Pow2Monotone(j, k - 1);
    }
  }

  lemma {:induction false} Pow2Add(a: nat, b: nat)
    ensures Pow2(a + b) == Pow2(a) * Pow2(b)
    decreases a
  {
    if a > 0 {
      Pow2Add(a - 1, b);
    }
  }

  /** A zoom below 32 keeps the grid's side within `u32`. */
  lemma Pow2Below32(k: nat)
    requires k < 32
    ensures Pow2(k) <= 0x8000_0000
  {
    Pow2Monotone(k, 31);
    assert Pow2(2) == 4;
    Pow2Add(2, 2);
    Pow2Add(4, 4);
    Pow2Add(8, 8);
    Pow2Add(16, 8);
    Pow2Add(24, 4);
    Pow2Add(28, 2);
    Pow2Add(30, 1);
  }
}
