/** What the decoder promises: bounded-distance decoding under rotation. */
module TagDecoding {
  import opened Words
  import opened Wrappers
  import opened QuickDecoding

  // The codes of the family stay 2m+1 apart under all four rotations, and each code from its own three turns.
  ghost predicate Separated(f: Family, m: nat)
    requires f.Valid()
  {
    forall a, b, r :: 0 <= a < |f.codes| && 0 <= b < |f.codes| && 0 <= r < 4 && (a != b || r != 0)
      ==> Distance(f.codes[b], Rotate(f.codes[a], f.nbits, r)) > 2 * m
  }

  function TurnBy(n: nat): Word -> Word
    requires n < 64
  {
    (w: Word) => Rotate90(w, n)
  }

  lemma {:induction false} RotateRepeats(w: Word, n: nat, t: nat)
    requires n < 64
    ensures Rotate(w, n, t) == Iterated(TurnBy(n), w, t)
  {
    if t > 0 {
      RotateRepeats(w, n, t - 1);
    }
  }

  lemma RotateAdd(w: Word, n: nat, s: nat, t: nat)
    requires n < 64
    ensures Rotate(Rotate(w, n, s), n, t) == Rotate(w, n, s + t)
  {
    RotateRepeats(w, n, s);
    RotateRepeats(Rotate(w, n, s), n, t);
    RotateRepeats(w, n, s + t);
    IteratedAdd(TurnBy(n), w, s, t);
  }

  // Turning four to seven times is turning up to three times.
  lemma RotateModFour(w: Word, n: nat, t: nat)
    requires Squares(n) && Clean(w, n)
    ensures Rotate(w, n, 4 + t) == Rotate(w, n, t)
  {
    RotateOrderFour(w, n);
    RotateAdd(w, n, 4, t);
  }

  lemma XorDistance(c: Word, e: Word)
    ensures Distance(c, Xor(c, e)) == Weight(e)
  {
    assert Diff(c, Xor(c, e)) == Diff(e, ZERO);
  }

  // A corrupted word stays exactly as far from the turned code however often both are turned.
  lemma {:induction false} TurnedTogether(a: Word, b: Word, n: nat, times: nat)
    requires Squares(n) && Clean(a, n) && Clean(b, n)
    ensures Distance(Rotate(a, n, times), Rotate(b, n, times)) == Distance(a, b)
  {
    if times > 0 {
      TurnedTogether(a, b, n, times - 1);
      RotateClean(a, n, times - 1);
      RotateClean(b, n, times - 1);
      RotateIsometry(Rotate(a, n, times - 1), Rotate(b, n, times - 1), n);
    }
  }

  // Seen after r turns, the received word is near code i when the turns add up to a full circle and near
  // no code otherwise.
  lemma SeenAfter(f: Family, m: nat, i: nat, k: nat, x: Word, r: nat)
    requires f.Valid() && Squares(f.nbits) && Separated(f, m) && i < |f.codes| && k < 4 && r < 4
    requires Clean(x, f.nbits) && Distance(Rotate(f.codes[i], f.nbits, k), x) <= m
    ensures NearestId(f, m, Rotate(x, f.nbits, r), 0) == if r == Undo(k) then Some(i) else None
    ensures r == Undo(k) ==>
      Distance(f.codes[i], Rotate(x, f.nbits, r)) == Distance(Rotate(f.codes[i], f.nbits, k), x)
  {
    var n, t := f.nbits, if k + r < 4 then k + r else k + r - 4;
    var y := Rotate(x, n, r);
    TurnsAddUp(f.codes[i], n, k, r, t);
    RotateClean(f.codes[i], n, k);
    TurnedTogether(Rotate(f.codes[i], n, k), x, n, r);
    OthersFar(f, m, i, t, y);
    assert Rotate(f.codes[i], n, 0) == f.codes[i];
  }

  // The turns that undo k turns.
  function Undo(k: nat): nat
    requires k < 4
  {
    if k == 0 then 0 else 4 - k
  }

  lemma TurnsAddUp(c: Word, n: nat, k: nat, r: nat, t: nat)
    requires Squares(n) && Clean(c, n) && (k + r == t || k + r == 4 + t)
    ensures Rotate(Rotate(c, n, k), n, r) == Rotate(c, n, t)
  {
    RotateAdd(c, n, k, r);
    if k + r == 4 + t {
      RotateModFour(c, n, t);
    }
  }

  lemma OthersFar(f: Family, m: nat, i: nat, t: nat, y: Word)
    requires f.Valid() && Separated(f, m) && i < |f.codes| && t < 4
    requires Distance(Rotate(f.codes[i], f.nbits, t), y) <= m
    ensures NearestId(f, m, y, 0) == if t == 0 then Some(i) else None
  {
    var c := Rotate(f.codes[i], f.nbits, t);
    forall j | 0 <= j < |f.codes| && (j != i || t != 0) ensures !Near(f.codes[j], y, m) {
      Triangle(f.codes[j], y, c);
      DistanceSym(y, c);
      assert Distance(f.codes[j], c) > 2 * m;
    }
    assert t == 0 ==> c == f.codes[i];
  }

  // A received word: code i, turned k times, with at most m wrong bits. Decoding it returns the id, the
  // number of wrong bits and the number of turns that undo the first k.
  lemma BoundedDistanceDecoding(f: Family, m: nat, i: nat, k: nat, e: Word)
    requires f.Valid() && Squares(f.nbits) && Separated(f, m) && i < |f.codes| && k < 4
    requires Clean(e, f.nbits) && Weight(e) <= m
    ensures var x := Xor(Rotate(f.codes[i], f.nbits, k), e);
            var r := Undo(k);
            NaiveDecode(f, m, x, 0) == Entry(Rotate(x, f.nbits, r), i, Weight(e), r)
  {
    var n, c := f.nbits, Rotate(f.codes[i], f.nbits, k);
    var x := Xor(c, e);
    RotateClean(f.codes[i], n, k);
    XorDistance(c, e);
    SkipMisses(f, m, i, k, x, 0);
    assert Rotate(x, n, 0) == x;
  }

  // The word was seen as code i after k quarter turns, with the bits of e wrong.
  ghost predicate Seen(f: Family, word: Word, i: nat, k: nat, e: Word)
    requires f.Valid() && i < |f.codes|
  {
    Clean(e, f.nbits) && exists seen :: TurnedBy(seen, f.codes[i], f.nbits, k) && word == Xor(seen, e)
  }

  // The entry names code i and the wrong bits, and its rotation more turns make the full circle and lead to its word.
  ghost predicate Recovers(f: Family, entry: Entry, word: Word, i: nat, k: nat, e: Word)
    requires f.Valid()
  {
    && entry.id == i && entry.hamming == Weight(e) && entry.rotation == (4 - k) % 4
    && TurnedBy(entry.rcode, word, f.nbits, entry.rotation)
  }

  lemma SeenIsRotated(f: Family, word: Word, i: nat, k: nat, e: Word)
    requires f.Valid() && Squares(f.nbits) && i < |f.codes| && k < 4 && Seen(f, word, i, k, e)
    ensures word == Xor(Rotate(f.codes[i], f.nbits, k), e) && Clean(word, f.nbits)
  {
    var c := f.codes[i];
    var seen :| TurnedBy(seen, c, f.nbits, k) && word == Xor(seen, e);
    RotateTurns(c, f.nbits, k);
    TurnedUnique(seen, Rotate(c, f.nbits, k), c, f.nbits, k);
    RotateClean(c, f.nbits, k);
  }

  lemma EntryRecovers(f: Family, entry: Entry, word: Word, i: nat, k: nat, e: Word, r: nat)
    requires f.Valid() && Squares(f.nbits) && Clean(word, f.nbits) && k < 4 && r == Undo(k)
    requires entry == Entry(Rotate(word, f.nbits, r), i, Weight(e), r)
    ensures Recovers(f, entry, word, i, k, e)
  {
    RotateTurns(word, f.nbits, r);
  }

  lemma NaiveEntry(f: Family, m: nat, word: Word, i: nat, k: nat, e: Word)
    requires f.Valid() && Squares(f.nbits) && Separated(f, m) && i < |f.codes| && k < 4
    requires Clean(e, f.nbits) && Weight(e) <= m && word == Xor(Rotate(f.codes[i], f.nbits, k), e)
    ensures NaiveDecode(f, m, word, 0) == Entry(Rotate(word, f.nbits, Undo(k)), i, Weight(e), Undo(k))
  {
    BoundedDistanceDecoding(f, m, i, k, e);
  }

  /** quick_decode_init and quick_decode_codeword on such a word, from an empty table to the answer: up to three wrong bits
    are corrected, for more there is no table and nothing decodes. */
  method DecodeReceived(f: Family, m: nat, word: Word, ghost i: nat, ghost k: nat, ghost e: Word) returns (entry: Entry)
    requires f.Valid() && Squares(f.nbits) && Separated(f, m) && i < |f.codes| && k < 4
    requires Seen(f, word, i, k, e) && Weight(e) <= m
    ensures if m <= 3 then Recovers(f, entry, word, i, k, e) else entry == Entry(ZERO, 65535, 255, 0)
  {
    SeenIsRotated(f, word, i, k, e);
    var qd := Init(f, m);
    entry := Decode(f, qd, word, m);
    NaiveEntry(f, m, word, i, k, e);
    if m <= 3 {
      EntryRecovers(f, entry, word, i, k, e, Undo(k));
    }
  }

  // The naive decoder on the word after ridx turns.
  ghost function NaiveAfter(f: Family, m: int, x: Word, ridx: nat): Entry
    requires f.Valid() && ridx <= 4
  {
    NaiveDecode(f, m, Rotate(x, f.nbits, ridx), ridx)
  }

  lemma NaiveHit(f: Family, m: int, x: Word, ridx: nat, id: nat)
    requires f.Valid() && ridx < 4 && NearestId(f, m, Rotate(x, f.nbits, ridx), 0) == Some(id)
    ensures id < |f.codes|
    ensures NaiveAfter(f, m, x, ridx)
      == Entry(Rotate(x, f.nbits, ridx), id, Distance(f.codes[id], Rotate(x, f.nbits, ridx)), ridx)
  {
  }

  lemma NaiveMiss(f: Family, m: int, x: Word, ridx: nat)
    requires f.Valid() && ridx < 4 && NearestId(f, m, Rotate(x, f.nbits, ridx), 0) == None
    ensures NaiveAfter(f, m, x, ridx) == NaiveAfter(f, m, x, ridx + 1)
  {
  }

  lemma {:induction false} SkipMisses(f: Family, m: nat, i: nat, k: nat, x: Word, ridx: nat)
    requires f.Valid() && Squares(f.nbits) && Separated(f, m) && i < |f.codes| && k < 4 && ridx <= Undo(k)
    requires Clean(x, f.nbits) && Distance(Rotate(f.codes[i], f.nbits, k), x) <= m
    ensures NaiveAfter(f, m, x, ridx)
      == Entry(Rotate(x, f.nbits, Undo(k)), i, Distance(Rotate(f.codes[i], f.nbits, k), x), Undo(k))
    decreases 4 - ridx
  {
    SeenAfter(f, m, i, k, x, ridx);
    if ridx != Undo(k) {
      NaiveMiss(f, m, x, ridx);
      SkipMisses(f, m, i, k, x, ridx + 1);
    } else {
      NaiveHit(f, m, x, ridx, i);
    }
  }

  // No code is near the word after r, r+1, ..., 3 turns.
  ghost predicate FarFrom(f: Family, m: int, x: Word, r: nat)
    requires f.Valid()
  {
    forall t, j :: r <= t < 4 && 0 <= j < |f.codes| ==> !Near(f.codes[j], Rotate(x, f.nbits, t), m)
  }

  // Decoding fails exactly when no rotation of the word is within m of any code, for every family.
  lemma {:induction false} FailsIffFar(f: Family, m: int, x: Word, ridx: nat)
    requires f.Valid() && ridx <= 4
    ensures NaiveAfter(f, m, x, ridx).hamming == 255 <==> FarFrom(f, m, x, ridx)
    decreases 4 - ridx
  {
    if ridx < 4 {
      var y := Rotate(x, f.nbits, ridx);
      var near := NearestId(f, m, y, 0);
      if near.Some? {
        NaiveHit(f, m, x, ridx, near.value);
        DistanceBound(f.codes[near.value], y);
      } else {
        NaiveMiss(f, m, x, ridx);
        FailsIffFar(f, m, x, ridx + 1);
      }
    }
  }
}
