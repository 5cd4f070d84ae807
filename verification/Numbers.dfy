/** Products with a size or a row number, as sums. */
module Numbers {

  function Min(a: nat, b: nat): nat {
    if a < b then a else b
  }

  // The n-th multiple of w.
  function Multiple(w: nat, n: nat): nat {
    if n == 0 then 0 else Multiple(w, n - 1) + w
  }

  lemma {:induction false} MultipleIsProduct(w: nat, n: nat)
    ensures Multiple(w, n) == n * w
  {
    if n > 0 {
      MultipleIsProduct(w, n - 1);
      assert (n - 1) * w + w == n * w;
    }
  }

  lemma {:induction false} MultipleMono(w: nat, m: nat, n: nat)
    requires m <= n
    ensures Multiple(w, m) <= Multiple(w, n)
  {
    if m < n {
      MultipleMono(w, m, n - 1);
    }
  }

  lemma QuotientUnique(w: nat, q: int, r: nat, y: int, x: nat)
    requires r < w && x < w && q * w + r == y * w + x
    ensures q == y && r == x
  {
    var d := q - y;
    assert d * w == x - r;
    assert d >= 1 ==> d * w >= w;
    assert d <= -1 ==> d * w + w <= 0;
  }

  // Between two multiples the remainder is the distance from the lower one.
  lemma Between(w: nat, n: nat, y: nat)
    requires w > 0 && Multiple(w, n) <= y < Multiple(w, n) + w
    ensures y / w == n && y % w == y - Multiple(w, n)
  {
    MultipleIsProduct(w, n);
    QuotientUnique(w, y / w, y % w, n, y - Multiple(w, n));
  }
}
