/** Values shared by every day: optional and fallible results, and the
    integer operators of Rust where they differ from Dafny's. */
module Common {

  datatype Option<+T> = None | Some(value: T)

  /** A parse or lookup that Rust would `unwrap` or `expect` becomes an error value. */
  datatype Result<+T> = Ok(value: T) | Err(msg: string)

  const USIZE_MAX: nat := 0xFFFF_FFFF_FFFF_FFFF
  const I64_MAX: int := 0x7FFF_FFFF_FFFF_FFFF

  /** Every row of a grid as wide as the first. */
  ghost predicate Rectangular<T>(grid: seq<seq<T>>)
  {
    forall r :: 0 <= r < |grid| ==> |grid[r]| == |grid[0]|
  }

  function Min(a: int, b: int): int { if a <= b then a else b }
  function Max(a: int, b: int): int { if a >= b then a else b }
  function Abs(a: int): int { if a < 0 then -a else a }

  /** Sum of a sequence, left to right. */
  function Sum(s: seq<int>): int
  {
    if |s| == 0 then 0 else Sum(s[..|s| - 1]) + s[|s| - 1]
  }

  /** Product of a sequence; the empty product is 1. */
  function Product(s: seq<int>): int
  {
    if |s| == 0 then 1 else Product(s[..|s| - 1]) * s[|s| - 1]
  }

  lemma {:induction false} SumAppend(s: seq<int>, t: seq<int>)
    ensures Sum(s + t) == Sum(s) + Sum(t)
    decreases |t|
  {
    if |t| == 0 {
      assert s + t == s;
    } else {
      assert (s + t)[..|s + t| - 1] == s + t[..|t| - 1];
      SumAppend(s, t[..|t| - 1]);
    }
  }

  lemma {:induction false} SumNonNegative(s: seq<int>)
    requires forall i :: 0 <= i < |s| ==> s[i] >= 0
    ensures Sum(s) >= 0
    decreases |s|
  {
    if |s| > 0 {
      SumNonNegative(s[..|s| - 1]);
    }
  }

  /** Changing one entry changes the sum by the difference. */
  lemma {:induction false} SumUpdate(s: seq<int>, i: nat, v: int)
    requires i < |s|
    ensures Sum(s[i := v]) == Sum(s) - s[i] + v
    decreases |s|
  {
    if i < |s| - 1 {
      assert s[i := v][..|s| - 1] == s[..|s| - 1][i := v];
      SumUpdate(s[..|s| - 1], i, v);
    } else {
      assert s[i := v][..|s| - 1] == s[..|s| - 1];
    }
  }

  /** A sequence that is pointwise at most another has at most its sum. */
  lemma {:induction false} SumMonotone(s: seq<int>, t: seq<int>)
    requires |s| == |t| && forall i :: 0 <= i < |s| ==> s[i] <= t[i]
    ensures Sum(s) <= Sum(t)
    decreases |s|
  {
    if |s| > 0 {
      SumMonotone(s[..|s| - 1], t[..|t| - 1]);
    }
  }

  lemma {:induction false} SumOfZeros(n: nat)
    ensures Sum(seq(n, _ => 0)) == 0
  {
    if n > 0 {
      assert seq(n, _ => 0)[..n - 1] == seq(n - 1, _ => 0);
      SumOfZeros(n - 1);
    }
  }

  /** `iter().max().unwrap_or(&0)`: the largest entry, or 0 for an empty sequence. */
  function MaxOr0(s: seq<int>): (r: int)
    ensures forall i :: 0 <= i < |s| ==> s[i] <= r
    ensures |s| > 0 ==> exists i :: 0 <= i < |s| && s[i] == r
    ensures |s| == 0 ==> r == 0
  {
    if |s| == 0 then 0
    else if |s| == 1 then s[0]
    else Max(MaxOr0(s[..|s| - 1]), s[|s| - 1])
  }

  /** Rust's `/` on signed integers: the quotient is truncated toward zero. */
  function TruncDiv(a: int, b: int): int
    requires b != 0
  {
    if a >= 0 || a % b == 0 then a / b
    else if b > 0 then a / b + 1
    else a / b - 1
  }

  /** Rust's `%` on signed integers: the remainder takes the sign of the dividend. */
  function TruncRem(a: int, b: int): int
    requires b != 0
  {
    if a >= 0 || a % b == 0 then a % b
    else if b > 0 then a % b - b
    else a % b + b
  }

  /** Quotient and remainder rebuild the dividend, as in Rust. */
  lemma TruncDivRem(a: int, b: int)
    requires b != 0
    ensures a == b * TruncDiv(a, b) + TruncRem(a, b)
  {
  }

  lemma TruncRemSign(a: int, b: int)
    requires b != 0
    ensures a >= 0 ==> 0 <= TruncRem(a, b) < Abs(b)
    ensures a < 0 ==> -Abs(b) < TruncRem(a, b) <= 0
  {
  }

  /** Rust and Dafny agree on whether a division is exact, and then on its quotient. */
  lemma TruncAgreesWhenExact(a: int, b: int)
    requires b != 0
    ensures TruncRem(a, b) == 0 <==> a % b == 0
    ensures a % b == 0 ==> TruncDiv(a, b) == a / b
  {
  }

  lemma {:induction false} MulAtLeast(b: int, k: nat)
    requires k >= 1
    ensures Abs(b * k) >= Abs(b)
    decreases k
  {
    if k > 1 {
      MulAtLeast(b, k - 1);
      assert b * k == b * (k - 1) + b;
    }
  }

  /** An exact quotient is the Euclidean one. */
  lemma ExactQuotient(a: int, b: int, q: int)
    requires b != 0 && a == b * q
    ensures a % b == 0 && a / b == q
  {
    var d, r := a / b, a % b;
    assert a == b * d + r && 0 <= r < Abs(b);
    assert b * (q - d) == r by {
      assert b * q - b * d == b * (q - d);
    }
    if q - d > 0 {
      MulAtLeast(b, q - d);
    } else if q - d < 0 {
      MulAtLeast(b, d - q);
    }
  }

  /** `v as usize` for an `i64` value on a 64-bit target: two's complement reinterpretation. */
  function AsUsize(v: int): (r: nat)
    ensures r <= USIZE_MAX
    ensures 0 <= v <= USIZE_MAX ==> r == v
    ensures (v - r) % (USIZE_MAX + 1) == 0
  {
    v % (USIZE_MAX + 1)
  }
}
