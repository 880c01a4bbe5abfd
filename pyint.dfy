/** Python's integer operators that the codec uses and that Dafny does not
    have with the same meaning.

    Python integers are unbounded and behave as infinite two's complement bit
    strings. `x << k` is `x * 2^k`; for a positive constant divisor, `x >> k`
    is floor division by 2^k and `x & (2^k - 1)` is the floor remainder, and
    Dafny's `/` and `%` agree with both for every integer, so the codec writes
    those directly. Only bitwise or needs a definition of its own. */
module PyInt {

  /** m is 1, 2, 4, 8, ... */
  predicate IsPow2(m: int)
    decreases if m < 1 then 0 else m
  {
    m == 1 || (m > 1 && m % 2 == 0 && IsPow2(m / 2))
  }

  function Abs(x: int): nat { if x < 0 then -x else x }

  /** Python's `x | y`, bit by bit from the least significant end. Once both
      operands are 0 or -1 (all remaining bits equal), the rest of the result
      is the or of those two. */
  function BitOr(x: int, y: int): (r: int)
    ensures r < 0 <==> x < 0 || y < 0
    decreases Abs(x) + Abs(y)
  {
    if (x == 0 || x == -1) && (y == 0 || y == -1) then
      (if x == -1 || y == -1 then -1 else 0)
    else
      2 * BitOr(x / 2, y / 2) + (if x % 2 == 1 || y % 2 == 1 then 1 else 0)
  }

  lemma {:induction false} BitOrZero(x: int)
    ensures BitOr(x, 0) == x
    decreases Abs(x)
  {
    if x != 0 && x != -1 {
      BitOrZero(x / 2);
    }
  }

  /** Or-ing in -1 (all bits set) gives -1 whatever the other operand. */
  lemma {:induction false} BitOrMinusOne(x: int)
    ensures BitOr(x, -1) == -1
    decreases Abs(x)
  {
    if x != 0 && x != -1 {
      BitOrMinusOne(x / 2);
    }
  }

  /** Or-ing a value below m = 2^k into a multiple of m (a value shifted left
      by k) is addition: the two have no bit in common. */
  lemma {:induction false} BitOrLow(q: int, m: int, y: int)
    requires IsPow2(m) && 0 <= y < m
    ensures BitOr(q * m, y) == q * m + y
    decreases m
  {
    if m == 1 {
      BitOrZero(q);
    } else {
      var x := q * m;
      assert x == 2 * (q * (m / 2));
      if (x == 0 || x == -1) && (y == 0 || y == -1) {
      } else {
        BitOrLow(q, m / 2, y / 2);
        assert x / 2 == q * (m / 2) && x % 2 == 0;
      }
    }
  }
}
