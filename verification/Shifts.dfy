/** Left shift, right shift and mask on unsigned numbers, one bit at a time. */
module Shifts {
  import opened Powers

  // x << n, without a word size
  function Shl(x: nat, n: nat): nat {
    if n == 0 then x else 2 * Shl(x, n - 1)
  }

  // x >> n
  function Shr(x: nat, n: nat): nat {
    if n == 0 then x else Shr(x, n - 1) / 2
  }

  // x & ((1 << n) - 1)
  function Low(x: nat, n: nat): nat {
    if n == 0 then 0 else 2 * Low(x / 2, n - 1) + x % 2
  }

  lemma {:induction false} ShlOne(n: nat)
    ensures Shl(1, n) == Pow2(n)
  {
    if n > 0 {
      ShlOne(n - 1);
    }
  }

  lemma {:induction false} ShlAdd(x: nat, y: nat, n: nat)
    ensures Shl(x + y, n) == Shl(x, n) + Shl(y, n)
  {
    if n > 0 {
      ShlAdd(x, y, n - 1);
    }
  }

  lemma {:induction false} ShlShl(x: nat, m: nat, n: nat)
    ensures Shl(Shl(x, m), n) == Shl(x, m + n)
  {
    if n > 0 {
      ShlShl(x, m, n - 1);
    }
  }

  lemma ShlMono(x: nat, y: nat, n: nat)
    requires x <= y
    ensures Shl(x, n) <= Shl(y, n)
  {
    ShlAdd(x, y - x, n);
  }

  lemma ShlStrict(x: nat, y: nat, n: nat)
    requires Shl(x, n) < Shl(y, n)
    ensures x < y
  {
    if y <= x {
      ShlMono(y, x, n);
    }
  }

  // The two shifts are adjoint: what is below x >> n is what, shifted left, is below x.
  lemma {:induction false} ShrAtLeast(x: nat, n: nat, q: nat)
    ensures q <= Shr(x, n) <==> Shl(q, n) <= x
  {
    if n > 0 {
      ShrAtLeast(x, n - 1, 2 * q);
      ShlAdd(q, q, n - 1);
    }
  }

  lemma {:induction false} ShrHalf(x: nat, n: nat)
    requires n > 0
    ensures Shr(x, n) == Shr(x / 2, n - 1)
  {
    if n > 1 {
      ShrHalf(x, n - 1);
    }
  }

  lemma {:induction false} LowBound(x: nat, n: nat)
    ensures Low(x, n) < Pow2(n)
  {
    if n > 0 {
      LowBound(x / 2, n - 1);
    }
  }

  lemma {:induction false} LowOfLow(x: nat, m: nat, n: nat)
    requires n <= m
    ensures Low(Low(x, m), n) == Low(x, n)
  {
    if n > 0 {
      LowOfLow(x / 2, m - 1, n - 1);
      var rest := Low(x / 2, m - 1);
      assert (2 * rest + x % 2) / 2 == rest && (2 * rest + x % 2) % 2 == x % 2;
    }
  }

  lemma {:induction false} LowOfSmall(x: nat, n: nat)
    requires x < Pow2(n)
    ensures Low(x, n) == x
  {
    if n > 0 {
      LowOfSmall(x / 2, n - 1);
    }
  }

  lemma {:induction false} ShrLow(x: nat, m: nat, n: nat)
    requires n <= m
    ensures Shr(Low(x, m), n) == Low(Shr(x, n), m - n)
  {
    if n > 0 {
      ShrHalf(Low(x, m), n);
      ShrHalf(x, n);
      assert Low(x, m) / 2 == Low(x / 2, m - 1);
      ShrLow(x / 2, m - 1, n - 1);
    }
  }
}
