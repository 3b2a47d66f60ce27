/** Quotients and remainders. */
module Division {
  lemma QuotientUnique(k: nat, i: nat, q: nat, rest: nat)
    requires i > 0
    requires k == i * q + rest
    requires rest < i
    ensures k / i == q && k % i == rest
  {
    SameDivision(i, q, rest, k / i, k % i);
  }

  lemma SameDivision(i: nat, q: int, r: nat, q': int, r': nat)
    requires r < i && r' < i
    requires i * q + r == i * q' + r'
    ensures q == q' && r == r'
  {
    var d := q - q';
    assert i * d == i * q - i * q';
    assert d != 0 ==> i <= i * d || i <= -(i * d);
  }

  /** Numbers less than a ring's size apart have different places in it, and a size apart the same one. */
  lemma PlacesApart(n: nat, m: nat, size: nat)
    requires size > 0 && n <= m <= n + size
    ensures n % size == m % size <==> n == m || m == n + size
  {
    if n < m < n + size && n % size == m % size {
      SameDivision(size, n / size, m - n, m / size, 0);
    }
    if m == n + size {
      QuotientUnique(m, size, n / size + 1, n % size);
    }
  }
}
