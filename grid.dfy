/** The board: a BSize x BSize torus, C++ remainder arithmetic on it, and the
    table of the four movement directions. */
module Grid {

  /** Edge length of the square board: the B_SIZE macro, 10 unless the build overrides it. */
  const BSize: int := 10

  /** A cell (x, y); x grows to the right and y grows downwards. */
  type Pos = (int, int)

  /** The direction table, indexed 0 Up, 1 Down, 2 Right, 3 Left, as (dx, dy) offsets. */
  const Directions: seq<Pos> := [(0, -1), (0, 1), (1, 0), (-1, 0)]

  predicate OnBoard(p: Pos) {
    0 <= p.0 < BSize && 0 <= p.1 < BSize
  }

  /** C++ `a % n` for a positive divisor: it truncates toward zero, so the
      remainder lies strictly between -n and n and carries the sign of `a`. */
  function CppRem(a: int, n: int): (r: int)
    requires n > 0
    ensures -n < r < n
    ensures a >= 0 ==> r >= 0
    ensures a <= 0 ==> r <= 0
  {
    if a >= 0 then a % n else -((-a) % n)
  }

  /** The C++ remainder differs from the dividend by a multiple of the divisor:
      `(a / n) * n + a % n == a` with truncating division. */
  lemma CppRemCongruent(a: int, n: int)
    requires n > 0
    ensures (a - CppRem(a, n)) % n == 0
  {
    if a >= 0 {
      var q := a / n;
      assert a - a % n == q * n + 0;
      ModUnique(a - a % n, n, q, 0);
    } else {
      var t, m := (-a) / n, (-a) % n;
      assert -a == t * n + m;
      assert a - (-m) == (-t) * n + 0;
      ModUnique(a - (-m), n, -t, 0);
    }
  }

  /** The coordinate normalisation of Snake::move: `(n + (v % n)) % n` in C++
      arithmetic, which always lands in [0, n). */
  function WrapCoord(v: int, n: int): (r: int)
    requires n > 0
    ensures 0 <= r < n
  {
    CppRem(n + CppRem(v, n), n)
  }

  /** The normalisation lands on the board and agrees with the mathematical
      (never negative) remainder, for every coordinate and every board size. */
  lemma WrapCoordIsMod(v: int, n: int)
    requires n > 0
    ensures WrapCoord(v, n) == v % n
    ensures 0 <= WrapCoord(v, n) < n
  {
    if v >= 0 {
      var r := v % n;
      ModUnique(n + r, n, 1, r);
    } else {
      var t, m := (-v) / n, (-v) % n;
      assert -v == t * n + m;
      if m == 0 {
        ModUnique(n, n, 1, 0);
        assert v == (-t) * n + 0;
        ModUnique(v, n, -t, 0);
      } else {
        ModUnique(n - m, n, 0, n - m);
        assert (-t - 1) * n == -(t * n) - n;
        ModUnique(v, n, -t - 1, n - m);
      }
    }
  }

  /** `v % n` is the unique remainder in [0, n). */
  lemma ModUnique(v: int, n: int, q: int, m: int)
    requires n > 0 && 0 <= m < n && v == q * n + m
    ensures v % n == m
  {
    var q', m' := v / n, v % n;
    assert v == q' * n + m';
    assert (q - q') * n == q * n - q' * n && (q' - q) * n == q' * n - q * n;
    if q' < q {
      MulAtLeast(q - q', n);
    } else if q' > q {
      MulAtLeast(q' - q, n);
    }
  }

  /** A positive multiple of n is at least n. */
  lemma {:induction false} MulAtLeast(a: int, n: int)
    requires a >= 1 && n > 0
    ensures a * n >= n
    decreases a
  {
    if a > 1 {
      MulAtLeast(a - 1, n);
      assert a * n == (a - 1) * n + n;
    }
  }

  /** Stepping off one edge re-enters at the opposite one: from n-1 by +1 to 0,
      and from 0 by -1 to n-1. */
  lemma WrapAtEdges(n: int)
    requires n > 0
    ensures WrapCoord(n - 1 + 1, n) == 0
    ensures WrapCoord(0 - 1, n) == n - 1
  {
    WrapCoordIsMod(n - 1 + 1, n);
    WrapCoordIsMod(0 - 1, n);
    ModUnique(n, n, 1, 0);
    ModUnique(-1, n, -1, n - 1);
  }
}
