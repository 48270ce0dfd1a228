/** C integer arithmetic the loopers rely on.

    C's `%` takes the sign of the dividend, whereas Dafny's `%` is Euclidean
    (never negative).  The address computations of the loopers are written
    with C's operator, so it is modelled here explicitly and related to
    Dafny's Euclidean one. */
module CInt {

  /** C's `a % m` for a positive divisor: `a - (a / m) * m` with the
      quotient truncated toward zero, so the result has the sign of `a`.
      When it is not negative it is the Euclidean remainder; when it is
      negative, adding `m` once gives the Euclidean remainder. */
  function CRem(a: int, m: int): (r: int)
    requires m > 0
    ensures a >= 0 ==> 0 <= r < m
    ensures a < 0 ==> -m < r <= 0
    ensures r >= 0 ==> r == a % m
    ensures r < 0 ==> r + m == a % m
  {
    if a >= 0 then
      a % m
    else
      var r := -((-a) % m);
      assert -a == ((-a) / m) * m - r;
      assert a == (-((-a) / m)) * m + r;
      if r < 0 then
        assert a == (-((-a) / m) - 1) * m + (r + m);
        EuclidUnique(a, m, -((-a) / m) - 1, r + m);
        r
      else
        EuclidUnique(a, m, -((-a) / m), r);
        r
  }

  /** A positive multiple of a positive number is at least that number. */
  lemma {:induction false} MulAtLeast(k: int, m: int)
    requires k >= 1 && m > 0
    ensures k * m >= m
  {
    if k > 1 {
      MulAtLeast(k - 1, m);
      assert k * m == (k - 1) * m + m;
    }
  }

  /** The only multiple of `m` strictly between `-m` and `m` is zero. */
  lemma MultipleInsideIsZero(k: int, m: int)
    requires m > 0 && -m < k * m < m
    ensures k == 0
  {
    if k >= 1 {
      MulAtLeast(k, m);
    } else if k <= -1 {
      MulAtLeast(-k, m);
    }
  }

  /** The Euclidean quotient and remainder are the only pair with a
      remainder in `[0, m)`. */
  lemma EuclidUnique(a: int, m: int, q: int, r: int)
    requires m > 0 && 0 <= r < m && a == q * m + r
    ensures a % m == r && a / m == q
  {
    var q0, r0 := a / m, a % m;
    assert a == q0 * m + r0;
    assert (q - q0) * m == q * m - q0 * m;
    MultipleInsideIsZero(q - q0, m);
  }

  /** At most `m` consecutive integers have pairwise distinct residues
      modulo `m`. */
  lemma ConsecutiveResiduesDistinct(base: int, i: int, j: int, m: int)
    requires m > 0 && 0 <= i < j < m
    ensures (base + i) % m != (base + j) % m
  {
    var qi, qj := (base + i) / m, (base + j) / m;
    assert base + i == qi * m + (base + i) % m;
    assert base + j == qj * m + (base + j) % m;
    if (base + i) % m == (base + j) % m {
      assert (qj - qi) * m == qj * m - qi * m;
      assert (qj - qi) * m == j - i;
      MultipleInsideIsZero(qj - qi, m);
    }
  }

  /** Starting from `base`, the cell `j` of `[0, m)` is reached after
      exactly `(j - base) % m` steps and after no other number of steps
      below `m`. */
  lemma ResidueOffset(base: int, i: int, j: int, m: int)
    requires m > 0 && 0 <= i < m && 0 <= j < m
    ensures (base + i) % m == j <==> i == (j - base) % m
  {
    var k := (j - base) % m;
    var q := (j - base) / m;
    assert j - base == q * m + k;
    assert base + k == (-q) * m + j;
    EuclidUnique(base + k, m, -q, j);
    if i < k {
      ConsecutiveResiduesDistinct(base, i, k, m);
    } else if k < i {
      ConsecutiveResiduesDistinct(base, k, i, m);
    }
  }

  /** Stepping one past `a` steps one past its residue, wrapping at `m`. */
  lemma ModSucc(a: int, m: int)
    requires m > 0
    ensures (a % m + 1) % m == (a + 1) % m
  {
    var q, r := a / m, a % m;
    assert a == q * m + r;
    if r + 1 < m {
      EuclidUnique(a + 1, m, q, r + 1);
    } else {
      assert a + 1 == (q + 1) * m + 0;
      EuclidUnique(a + 1, m, q + 1, 0);
    }
  }

  /** The block after `c` in a loop of `L` blocks. */
  function Succ(c: int, L: int): (r: int) {
    if c + 1 == L then 0 else c + 1
  }

  /** The loopers advance their block counter with `(count + 1) % L`;
      inside the loop that is Succ. */
  lemma SuccIsMod(c: int, L: int)
    requires 0 <= c < L
    ensures Succ(c, L) == (c + 1) % L
  {
    if c + 1 == L {
      EuclidUnique(c + 1, L, 1, 0);
    } else {
      EuclidUnique(c + 1, L, 0, c + 1);
    }
  }

  /** The block counter after `n` advances from block `c`. */
  function Advance(c: int, n: nat, L: int): (r: int) {
    if n == 0 then c else Succ(Advance(c, n - 1, L), L)
  }

  /** `n` advances from block `c` land on block `(c + n) % L`. */
  lemma {:induction false} AdvanceIsMod(c: int, n: nat, L: int)
    requires 0 <= c < L
    ensures Advance(c, n, L) == (c + n) % L
  {
    if n == 0 {
      EuclidUnique(c, L, 0, c);
    } else {
      AdvanceIsMod(c, n - 1, L);
      var before := Advance(c, n - 1, L);
      SuccIsMod(before, L);
      ModSucc(c + (n - 1), L);
      assert c + (n - 1) + 1 == c + n;
    }
  }

  /** The number of advances from block `c0` to block `b` in a loop of
      `L` blocks. */
  function StepsTo(c0: int, b: int, L: int): (r: int) {
    if b >= c0 then b - c0 else b - c0 + L
  }

  /** Within one revolution an advance is an addition, wrapped once. */
  lemma {:induction false} AdvanceWithin(c0: int, m: nat, L: int)
    requires 0 <= c0 < L && m <= L
    ensures Advance(c0, m, L) == if c0 + m < L then c0 + m else c0 + m - L
  {
    if m > 0 {
      AdvanceWithin(c0, m - 1, L);
    }
  }

  /** Within one revolution from block `c0` the counter is at block `b`
      after exactly StepsTo(c0, b, L) advances, and after no other number
      of them. */
  lemma AdvanceReaches(c0: int, m: nat, b: int, L: int)
    requires 0 <= c0 < L && 0 <= b < L && m < L
    ensures 0 <= StepsTo(c0, b, L) < L
    ensures Advance(c0, m, L) == b <==> m == StepsTo(c0, b, L)
  {
    AdvanceWithin(c0, m, L);
  }
}
