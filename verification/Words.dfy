/** 64-bit code words as bits, least significant first, the Hamming metric on them, and the quarter turn
  of a square tag (rotate90 of apriltag.c). */
module Words {
  import opened FiniteSets
  import opened Numbers

  type Word = w: seq<bool> | |w| == 64 witness Repeat(false)

  function Repeat(b: bool): seq<bool> {
    seq(64, i requires 0 <= i < 64 => b)
  }

  const ZERO: Word := Repeat(false)
  const ALL_ONES: Word := Repeat(true)

  function Shl(w: Word, k: nat): Word {
    seq(64, i requires 0 <= i < 64 => i >= k && w[i - k])
  }

  function Shr(w: Word, k: nat): Word {
    seq(64, i requires 0 <= i < 64 => i + k < 64 && w[i + k])
  }

  function Or(a: Word, b: Word): Word {
    seq(64, i requires 0 <= i < 64 => a[i] || b[i])
  }

  function And(a: Word, b: Word): Word {
    seq(64, i requires 0 <= i < 64 => a[i] && b[i])
  }

  function Xor(a: Word, b: Word): Word {
    seq(64, i requires 0 <= i < 64 => a[i] != b[i])
  }

  // 1 << j
  function Bit(j: nat): Word {
    seq(64, i requires 0 <= i < 64 => i == j)
  }

  // (1 << n) - 1
  function Mask(n: nat): Word {
    seq(64, i requires 0 <= i < 64 => i < n)
  }

  // The numeric value of the low k bits.
  function ValueOf(w: Word, k: nat): nat
    requires k <= 64
  {
    if k == 0 then 0 else (if w[64 - k] then 1 else 0) + 2 * ValueOf(w, k - 1)
  }

  function Value(w: Word): nat {
    ValueOf(w, 64)
  }

  // w has at most n bits.
  ghost predicate Clean(w: Word, n: nat) {
    forall i :: n <= i < 64 ==> !w[i]
  }

  ghost function Diff(a: Word, b: Word): set<nat> {
    set i: nat | i < 64 && a[i] != b[i]
  }

  ghost function Distance(a: Word, b: Word): nat {
    |Diff(a, b)|
  }

  ghost function Weight(w: Word): nat {
    Distance(w, ZERO)
  }

  // ---- The quarter turn ----

  function Rotate90(w: Word, numBits: nat): Word
    requires numBits < 64
  {
    if numBits % 4 == 1 then Turn(w, numBits, numBits - 1, 1) else Turn(w, numBits, numBits, 0)
  }

  // A turn of p bits, the low l bits staying where they are.
  function Turn(w: Word, numBits: nat, p: nat, l: nat): Word {
    And(Or(Or(Shl(Shr(w, l), p / 4 + l), Shl(Shr(w, 3 * p / 4 + l), l)), And(w, Mask(l))), Mask(numBits))
  }

  function Rotate(w: Word, n: nat, times: nat): Word
    requires n < 64
  {
    if times == 0 then w else Rotate90(Rotate(w, n, times - 1), n)
  }

  // Where bit i of the turned word comes from, for l + 4q bits.
  function Source(l: nat, q: nat, i: nat): nat
    requires i < l + 4 * q
  {
    if i < l then i else if i - l < q then i + 3 * q else i - q
  }

  // Where bit i goes.
  function Target(l: nat, q: nat, i: nat): nat
    requires i < l + 4 * q
  {
    if i < l then i else if i - l < 3 * q then i + q else i - 3 * q
  }

  predicate Squares(n: nat) {
    n < 64 && (n % 4 == 0 || n % 4 == 1)
  }

  // r is w, a word of l + 4q bits, with its bits moved by a quarter turn.
  ghost predicate Turned(r: Word, w: Word, l: nat, q: nat)
    requires l + 4 * q < 64
  {
    Clean(r, l + 4 * q) && forall i :: 0 <= i < l + 4 * q ==> r[i] == w[Source(l, q, i)]
  }

  lemma ShiftedBit(w: Word, l: nat, q: nat, i: nat)
    requires l <= 1 && i < l + 4 * q < 64
    ensures Shl(Shr(w, l), q + l)[i] == (i >= q + l && w[i - q])
    ensures Shl(Shr(w, 3 * q + l), l)[i] == (i >= l && i + 3 * q < 64 && w[i + 3 * q])
  {
  }

  lemma TurnBits(w: Word, l: nat, q: nat)
    requires l <= 1 && l + 4 * q < 64 && Clean(w, l + 4 * q)
    ensures Turned(Turn(w, l + 4 * q, 4 * q, l), w, l, q)
  {
    var r := Turn(w, l + 4 * q, 4 * q, l);
    assert (4 * q) / 4 == q && 3 * (4 * q) / 4 == 3 * q;
    var up, down := Shl(Shr(w, l), q + l), Shl(Shr(w, 3 * q + l), l);
    assert r == And(Or(Or(up, down), And(w, Mask(l))), Mask(l + 4 * q));
    forall i | 0 <= i < l + 4 * q ensures r[i] == w[Source(l, q, i)] {
      ShiftedBit(w, l, q, i);
      assert r[i] == (up[i] || down[i] || (w[i] && i < l));
    }
  }

  lemma RotateIsTurn(w: Word, n: nat, l: nat, q: nat)
    requires n == l + 4 * q < 64 && l <= 1
    ensures Rotate90(w, n) == Turn(w, n, 4 * q, l)
  {
    if l == 1 {
      assert n % 4 == 1 && n - 1 == 4 * q;
    } else {
      assert n % 4 == 0 && n == 4 * q;
    }
  }

  lemma RotateBits(w: Word, n: nat)
    requires Squares(n) && Clean(w, n)
    ensures Turned(Rotate90(w, n), w, n % 4, n / 4)
  {
    RotateAt(w, n, n % 4, n / 4);
  }

  lemma RotateAt(w: Word, n: nat, l: nat, q: nat)
    requires n == l + 4 * q < 64 && l <= 1 && Clean(w, n)
    ensures Turned(Rotate90(w, n), w, l, q)
  {
    RotateIsTurn(w, n, l, q);
    TurnBits(w, l, q);
  }

  // x is w after k quarter turns: a middle bit stays where it is, every other bit goes up by a quarter of the bits for
  // each turn and wraps around.
  ghost predicate TurnedBy(x: Word, w: Word, n: nat, k: nat)
    requires n < 64
  {
    var l, q := n % 4, n / 4;
    && Clean(x, n) && (l == 1 ==> x[0] == w[0])
    && forall i :: l <= i < l + 4 * q ==> MovedTo(x, w, l, q, i, k)
  }

  // Where bit i goes by k turns.
  function Place(l: nat, q: nat, i: nat, k: nat): nat
    requires l <= i && q > 0
  {
    l + (i - l + k * q) % (4 * q)
  }

  ghost predicate MovedTo(x: Word, w: Word, l: nat, q: nat, i: nat, k: nat)
    requires l <= i < l + 4 * q < 64
  {
    Place(l, q, i, k) < 64 && x[Place(l, q, i, k)] == w[i]
  }

  lemma AddModulus(x: nat, m: nat)
    requires m > 0
    ensures (x + m) % m == x % m
  {
    var d, r := x / m, x % m;
    QuotientIs(x + m, m, d + 1, r);
  }

  lemma QuotientIs(a: nat, m: nat, d: nat, r: nat)
    requires r < m && a == d * m + r
    ensures a / m == d && a % m == r
  {
    QuotientUnique(m, a / m, a % m, d, r);
  }

  lemma {:induction false} AddModuli(x: nat, m: nat, d: nat)
    requires m > 0
    ensures (x + d * m) % m == x % m
  {
    if d > 0 {
      AddModuli(x, m, d - 1);
      AddModulus(x + (d - 1) * m, m);
      assert x + (d - 1) * m + m == x + d * m;
    }
  }

  lemma WrapOnce(a: nat, m: nat)
    requires a < 2 * m
    ensures a % m == if a < m then a else a - m
  {
    QuotientIs(a, m, if a < m then 0 else 1, if a < m then a else a - m);
  }

  // A quarter turn moves each bit a quarter of the bits up.
  lemma RotatesUp(w: Word, n: nat, l: nat, q: nat)
    requires n == l + 4 * q < 64 && l <= 1 && Clean(w, n)
    ensures forall i :: l <= i < n ==> MovedTo(Rotate90(w, n), w, l, q, i, 1)
    ensures l == 1 ==> Rotate90(w, n)[0] == w[0]
  {
    RotateAt(w, n, l, q);
    forall i | l <= i < n ensures MovedTo(Rotate90(w, n), w, l, q, i, 1) {
      WrapOnce(i - l + q, 4 * q);
      assert Place(l, q, i, 1) == l + (i - l + q) % (4 * q);
      assert Source(l, q, Place(l, q, i, 1)) == i;
    }
  }

  lemma PlaceOfOneTurn(l: nat, q: nat, i: nat)
    requires l <= i && q > 0
    ensures Place(l, q, i, 1) == l + (i - l + q) % (4 * q)
  {
  }

  /** rotate90 written out: of l + 4q bits the lowest stays if l is 1, and bit i of the others goes up by q places and
    wraps around. */
  lemma QuarterTurn(w: Word, n: nat, l: nat, q: nat)
    requires n == l + 4 * q < 64 && l <= 1 && Clean(w, n)
    ensures forall i :: l <= i < n ==> Rotate90(w, n)[l + (i - l + q) % (4 * q)] == w[i]
    ensures l == 1 ==> Rotate90(w, n)[0] == w[0]
    ensures Clean(Rotate90(w, n), n)
  {
    RotatesUp(w, n, l, q);
    RotateAt(w, n, l, q);
    forall i | l <= i < n ensures Rotate90(w, n)[l + (i - l + q) % (4 * q)] == w[i] {
      assert MovedTo(Rotate90(w, n), w, l, q, i, 1);
      PlaceOfOneTurn(l, q, i);
    }
  }

  lemma {:induction false} SourceCard(S: set<nat>, T: set<nat>, l: nat, q: nat)
    requires forall i :: i in S ==> i < l + 4 * q && Source(l, q, i) in T
    ensures |S| <= |T|
  {
    if S != {} {
      var x :| x in S;
      SourceCard(S - {x}, T - {Source(l, q, x)}, l, q);
    }
  }

  lemma {:induction false} TargetCard(S: set<nat>, T: set<nat>, l: nat, q: nat)
    requires forall i :: i in S ==> i < l + 4 * q && Target(l, q, i) in T
    ensures |S| <= |T|
  {
    if S != {} {
      var x :| x in S;
      TargetCard(S - {x}, T - {Target(l, q, x)}, l, q);
    }
  }

  lemma TurnedKeepsDistance(a: Word, b: Word, ra: Word, rb: Word, l: nat, q: nat)
    requires l + 4 * q < 64 && Clean(a, l + 4 * q) && Clean(b, l + 4 * q)
    requires Turned(ra, a, l, q) && Turned(rb, b, l, q)
    ensures Distance(ra, rb) == Distance(a, b)
  {
    DiffMoves(a, b, ra, rb, l, q);
    SourceCard(Diff(ra, rb), Diff(a, b), l, q);
    TargetCard(Diff(a, b), Diff(ra, rb), l, q);
  }

  lemma DiffMoves(a: Word, b: Word, ra: Word, rb: Word, l: nat, q: nat)
    requires l + 4 * q < 64 && Clean(a, l + 4 * q) && Clean(b, l + 4 * q)
    requires Turned(ra, a, l, q) && Turned(rb, b, l, q)
    ensures forall i :: i in Diff(ra, rb) ==> i < l + 4 * q && Source(l, q, i) in Diff(a, b)
    ensures forall i :: i in Diff(a, b) ==> i < l + 4 * q && Target(l, q, i) in Diff(ra, rb)
  {
    forall i | i in Diff(a, b) ensures i < l + 4 * q && Target(l, q, i) in Diff(ra, rb) {
      var t := Target(l, q, i);
      assert Source(l, q, t) == i;
      assert ra[t] == a[i] && rb[t] == b[i];
    }
  }

  // The turn only moves bits around: it keeps every Hamming distance.
  lemma RotateIsometry(a: Word, b: Word, n: nat)
    requires Squares(n) && Clean(a, n) && Clean(b, n)
    ensures Distance(Rotate90(a, n), Rotate90(b, n)) == Distance(a, b)
  {
    RotateBits(a, n);
    RotateBits(b, n);
    TurnedKeepsDistance(a, b, Rotate90(a, n), Rotate90(b, n), n % 4, n / 4);
  }

  lemma ShiftModulo(x: nat, m: nat, q: nat)
    requires m > 0
    ensures (x % m + q) % m == (x + q) % m
  {
    var d := x / m;
    assert x + q == x % m + q + d * m;
    AddModuli(x % m + q, m, d);
  }

  // One more turn from where k turns lead.
  lemma PlaceNext(l: nat, q: nat, i: nat, k: nat)
    requires l <= i && q > 0
    ensures l <= Place(l, q, i, k) < l + 4 * q && Place(l, q, Place(l, q, i, k), 1) == Place(l, q, i, k + 1)
  {
    var x := i - l + k * q;
    assert i - l + (k + 1) * q == x + q;
    ShiftModulo(x, 4 * q, q);
  }

  lemma TurnedOnceMore(x: Word, w: Word, n: nat, k: nat)
    requires Squares(n) && TurnedBy(x, w, n, k)
    ensures TurnedBy(Rotate90(x, n), w, n, k + 1)
  {
    var l, q, next := n % 4, n / 4, k + 1;
    RotatesUp(x, n, l, q);
    RotateAt(x, n, l, q);
    forall i | l <= i < l + 4 * q ensures MovedTo(Rotate90(x, n), w, l, q, i, next) {
      assert MovedTo(x, w, l, q, i, k);
      PlaceNext(l, q, i, k);
      assert MovedTo(Rotate90(x, n), x, l, q, Place(l, q, i, k), 1);
    }
  }

  lemma NotTurned(w: Word, n: nat)
    requires Squares(n) && Clean(w, n)
    ensures TurnedBy(w, w, n, 0)
  {
    var l, q := n % 4, n / 4;
    forall i | l <= i < l + 4 * q ensures MovedTo(w, w, l, q, i, 0) {
      WrapOnce(i - l, 4 * q);
    }
  }

  // k turns move every bit by k quarters of the bits.
  lemma {:induction false} RotateTurns(w: Word, n: nat, k: nat)
    requires Squares(n) && Clean(w, n)
    ensures TurnedBy(Rotate(w, n, k), w, n, k)
  {
    if k == 0 {
      NotTurned(w, n);
    } else {
      RotateTurns(w, n, k - 1);
      TurnedOnceMore(Rotate(w, n, k - 1), w, n, k - 1);
    }
  }

  // Where a bit of the turned word comes from.
  lemma MovedFrom(l: nat, q: nat, j: nat, k: nat) returns (i: nat)
    requires l <= j < l + 4 * q && k < 4
    ensures l <= i < l + 4 * q && Place(l, q, i, k) == j
  {
    var back := k * q;
    assert back < 4 * q;
    i := if j - l >= back then j - back else j + 4 * q - back;
    WrapOnce(i - l + back, 4 * q);
  }

  lemma TurnedUnique(x: Word, y: Word, w: Word, n: nat, k: nat)
    requires Squares(n) && TurnedBy(x, w, n, k) && TurnedBy(y, w, n, k) && k < 4
    ensures x == y
  {
    var l, q := n % 4, n / 4;
    forall j | l <= j < l + 4 * q ensures x[j] == y[j] {
      var i := MovedFrom(l, q, j, k);
      assert MovedTo(x, w, l, q, i, k) && MovedTo(y, w, l, q, i, k);
    }
  }

  lemma TurnedFourTimes(w: Word, w1: Word, w2: Word, w3: Word, w4: Word, l: nat, q: nat)
    requires l + 4 * q < 64 && Clean(w, l + 4 * q)
    requires Turned(w1, w, l, q) && Turned(w2, w1, l, q) && Turned(w3, w2, l, q) && Turned(w4, w3, l, q)
    ensures w4 == w
  {
    forall i | 0 <= i < l + 4 * q ensures w4[i] == w[i] {
      var s1 := Source(l, q, i);
      var s2 := Source(l, q, s1);
      var s3 := Source(l, q, s2);
      assert Source(l, q, s3) == i;
    }
  }

  // One more turn.
  lemma RotateStep(w: Word, n: nat, times: nat)
    requires Squares(n) && Clean(w, n)
    ensures Clean(Rotate(w, n, times), n)
    ensures Turned(Rotate(w, n, times + 1), Rotate(w, n, times), n % 4, n / 4)
  {
    RotateClean(w, n, times);
    RotateBits(Rotate(w, n, times), n);
  }

  lemma {:induction false} RotateClean(w: Word, n: nat, times: nat)
    requires n < 64 && Clean(w, n)
    ensures Clean(Rotate(w, n, times), n)
  {
  }

  // Four quarter turns are no turn.
  lemma RotateOrderFour(w: Word, n: nat)
    requires Squares(n) && Clean(w, n)
    ensures Rotate(w, n, 4) == w
  {
    assert Rotate(w, n, 0) == w;
    RotateStep(w, n, 0);
    RotateStep(w, n, 1);
    RotateStep(w, n, 2);
    RotateStep(w, n, 3);
    TurnedFourTimes(w, Rotate(w, n, 1), Rotate(w, n, 2), Rotate(w, n, 3), Rotate(w, n, 4), n % 4, n / 4);
  }

  lemma RotateXor(a: Word, b: Word, n: nat)
    requires Squares(n) && Clean(a, n) && Clean(b, n)
    ensures Rotate90(Xor(a, b), n) == Xor(Rotate90(a, n), Rotate90(b, n))
  {
    RotateBits(a, n);
    RotateBits(b, n);
    RotateBits(Xor(a, b), n);
  }

  // Grids whose size leaves remainder 2 or 3 do not turn: some single-bit word comes out with two bits.
  lemma RotateIsIsometryIff(n: nat)
    requires 0 < n < 64
    ensures (forall a: Word, b: Word :: Clean(a, n) && Clean(b, n)
               ==> Distance(Rotate90(a, n), Rotate90(b, n)) == Distance(a, b))
      <==> Squares(n)
  {
    if Squares(n) {
      forall a: Word, b: Word | Clean(a, n) && Clean(b, n)
        ensures Distance(Rotate90(a, n), Rotate90(b, n)) == Distance(a, b)
      {
        RotateIsometry(a, b, n);
      }
    } else {
      var k := 3 * n / 4;
      var e := Bit(k);
      assert Diff(e, ZERO) == {k};
      var r, z := Rotate90(e, n), Rotate90(ZERO, n);
      assert r[0] && r[k + n / 4] && !z[0] && !z[k + n / 4];
      assert {0, k + n / 4} <= Diff(r, z);
      SubsetCard({0, k + n / 4}, Diff(r, z));
    }
  }

  lemma Triangle(a: Word, b: Word, c: Word)
    ensures Distance(a, c) <= Distance(a, b) + Distance(b, c)
  {
    assert Diff(a, c) <= Diff(a, b) + Diff(b, c);
    SubsetCard(Diff(a, c), Diff(a, b) + Diff(b, c));
  }

  lemma DistanceSym(a: Word, b: Word)
    ensures Distance(a, b) == Distance(b, a)
  {
    assert Diff(a, b) == Diff(b, a);
  }

  lemma DistanceBound(a: Word, b: Word)
    ensures Distance(a, b) <= 64
  {
    BoundedCard(Diff(a, b), 64);
  }
}
