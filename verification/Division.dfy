/** Quotients and remainders by a variable, for the models that divide by a length or by a size of blocks. */
module Division {
  lemma QuotientIs(x: nat, n: nat, k: nat)
    requires n > 0 && k * n <= x < (k + 1) * n
    ensures x / n == k
  {
    var q := x / n;
    assert q * n <= x < (q + 1) * n;
    NotBelow(x, n, q, k);
    NotBelow(x, n, k, q);
  }

  lemma NotBelow(x: nat, n: nat, q: nat, k: nat)
    requires n > 0 && k * n <= x < (q + 1) * n
    ensures k <= q
  {
    assert k > q ==> (q + 1) * n <= k * n;
  }

  lemma RemainderIs(k: nat, n: nat, r: nat)
    requires r < n
    ensures (k * n + r) % n == r
  {
    assert (k + 1) * n == k * n + n;
    QuotientIs(k * n + r, n, k);
  }
}
