/** Java's 32-bit `int` arithmetic, written out over unbounded integers. */
module JavaInt {

  const MaxInt: int := 0x7FFF_FFFF
  const MinInt: int := -0x8000_0000

  predicate IsInt(x: int) {
    MinInt <= x <= MaxInt
  }

  /** 2 to the power `n`. */
  function Pow2(n: nat): (r: nat)
    ensures r >= 1
  {
    if n == 0 then 1 else 2 * Pow2(n - 1)
  }

  lemma {:induction false} Pow2Monotone(m: nat, n: nat)
    requires m <= n
    ensures Pow2(m) <= Pow2(n)
    decreases n - m
  {
    if m < n {
      Pow2Monotone(m, n - 1);
    }
  }

  lemma {:induction false} Pow2Add(m: nat, n: nat)
    ensures Pow2(m + n) == Pow2(m) * Pow2(n)
    decreases n
  {
    if n > 0 {
      Pow2Add(m, n - 1);
    }
  }

  /** The powers of two at the edge of the `int` range. */
  lemma Pow2Edges()
    ensures Pow2(30) == 0x4000_0000
    ensures Pow2(31) == 0x8000_0000
  {
    assert Pow2(10) == 1024;
    Pow2Add(10, 10);
    Pow2Add(20, 10);
  }

  /** The two's-complement value of the low 32 bits of `x`: what an `int`
      holds after an arithmetic result `x` has wrapped around. */
  function Wrap(x: int): (r: int)
    ensures IsInt(r)
    ensures (r - x) % 0x1_0000_0000 == 0
    ensures IsInt(x) ==> r == x
  {
    var low := x % 0x1_0000_0000;
    if low <= MaxInt then low else low - 0x1_0000_0000
  }

  /** `Math.abs(x)` on an `int`: `Math.abs(MinInt)` overflows back to `MinInt`. */
  function Abs(x: int): (r: int)
    requires IsInt(x)
    ensures IsInt(r)
    ensures x != MinInt ==> r >= 0 && (r == x || r == -x)
    ensures x == MinInt ==> r < 0
  {
    if x >= 0 then x else Wrap(-x)
  }

  /** Java's `%` on `int`: the remainder takes the sign of the dividend
      (division truncates toward zero), unlike Dafny's Euclidean `%`. */
  function Rem(a: int, b: int): (r: int)
    requires b > 0
    ensures a >= 0 ==> r == a % b
    ensures a < 0 ==> -b < r <= 0
  {
    if a >= 0 then a % b else -((-a) % b)
  }
}
