/** The few facts about products and remainders that the solver needs to be told. */
module Arithmetic {

  lemma DivideSum(q: nat, page: nat, r: nat)
    requires r < page
    ensures (q * page + r) % page == r && (q * page + r) / page == q
  {
    var n := q * page + r;
    assert n == page * (n / page) + n % page;
    DivisionUnique(page, q, r, n / page, n % page);
  }

  lemma SmallMultiple(d: int, page: int, m: int)
    requires d * page == m && -page < m < page
    ensures d == 0
  {
  }

  lemma DivisionUnique(page: nat, q: int, r: int, q': int, r': int)
    requires q * page + r == q' * page + r' && 0 <= r < page && 0 <= r' < page
    ensures q == q' && r == r'
  {
    assert (q - q') * page == q * page - q' * page;
    SmallMultiple(q - q', page, r' - r);
  }

  lemma FrameRange(frame: int, page: nat, r: nat, frames: nat)
    requires r < page && 0 <= frame * page + r < frames * page
    ensures 0 <= frame < frames
  {
  }

  lemma ModPlus(x: nat, n: nat)
    requires n > 0
    ensures (x + n) % n == x % n
  {
    var q, r := x / n, x % n;
    assert x == q * n + r;
    assert (q + 1) * n == q * n + n;
    DivideSum(q + 1, n, r);
  }

  lemma ModMultiples(x: nat, k: nat, n: nat)
    requires n > 0
    ensures (x + k * n) % n == x % n
  {
    var q, r := x / n, x % n;
    assert x == q * n + r;
    assert (q + k) * n == q * n + k * n;
    DivideSum(q + k, n, r);
  }

  lemma ProductOrder(i: nat, j: nat, n: nat)
    requires i <= j
    ensures i * n <= j * n
  {
    assert (j - i) * n == j * n - i * n;
  }

  lemma NonNegativeFactor(k: int, page: nat)
    requires page > 0 && k * page >= 0
    ensures k >= 0
  {
  }

  lemma ModSuccessor(m: nat, n: nat)
    requires m > 0 && n > 0
    ensures m % n == if (m - 1) % n + 1 == n then 0 else (m - 1) % n + 1
  {
    var q, r := (m - 1) / n, (m - 1) % n;
    assert m - 1 == q * n + r;
    if r + 1 == n {
      assert (q + 1) * n == q * n + n;
      DivideSum(q + 1, n, 0);
    } else {
      DivideSum(q, n, r + 1);
    }
  }
}
