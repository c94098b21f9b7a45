/** Facts about quotients and remainders of naturals. */
module Division {

  lemma DivMod(x: nat, k: nat)
    requires k > 0
    ensures x == k * (x / k) + x % k && 0 <= x % k < k && x / k >= 0
  {
  }

  lemma SplitDivision(x: nat, y: nat, k: nat)
    requires k > 0
    ensures x / k + (x % k + y) / k == (x + y) / k
    ensures (x % k + y) % k == (x + y) % k
  {
    DivMod(x, k);
    DivMod(x % k + y, k);
    SplitSum(x, y, k, x / k, x % k, (x % k + y) / k, (x % k + y) % k);
  }

  lemma SplitSum(x: nat, y: nat, k: nat, q: int, m: int, q': int, m': int)
    requires x == k * q + m && m + y == k * q' + m' && 0 <= m' < k
    ensures (x + y) / k == q + q' && (x + y) % k == m'
  {
    Distribute(k, q, q');
    QuotientUnique(x + y, q + q', m', k);
  }

  lemma QuotientUnique(x: nat, q: int, m: int, k: nat)
    requires 0 <= m < k && x == k * q + m
    ensures x / k == q && x % k == m
  {
    DivMod(x, k);
    NearMultiples(k, q, m, x / k, x % k);
  }

  lemma NearMultiples(k: nat, q: int, m: int, q': int, m': int)
    requires 0 <= m < k && 0 <= m' < k && k * q + m == k * q' + m'
    ensures q == q' && m == m'
  {
    var e := q' - q;
    assert k * e == k * q' - k * q;
    NoSmallMultiple(k, e);
  }

  lemma NoSmallMultiple(k: int, e: int)
    requires k > 0 && -k < k * e < k
    ensures e == 0
  {
  }

  lemma ModBelow(x: nat, k: nat)
    requires k > 0
    ensures x % k < k && x % k <= x
  {
    assert x == k * (x / k) + x % k;
    assert k * (x / k) >= 0;
  }

  lemma DivMonotone(x: nat, y: nat, k: nat)
    requires x <= y && k > 0
    ensures x / k <= y / k
  {
    SplitDivision(x, y - x, k);
  }

  lemma MulMonotone(m: nat, x: nat, y: nat)
    requires x <= y
    ensures m * x <= m * y
  {
  }

  lemma Distribute(m: int, x: int, y: int)
    ensures m * x + m * y == m * (x + y)
  {
  }
}
