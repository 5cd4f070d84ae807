/** The codeword table of apriltag.c: open addressing with linear probing, filled with every word within
  Hamming distance m of a tag code and queried under the four rotations. */
module QuickDecoding {
  import opened FiniteSets
  import opened Words
  import opened Wrappers

  datatype Entry = Entry(rcode: Word, id: nat, hamming: nat, rotation: nat)

  function Home(code: Word, n: nat): (bucket: nat)
    requires n > 0
    ensures bucket < n
  {
    Value(code) % n
  }

  // The d-th bucket probed for a code.
  function Slot(code: Word, d: nat, n: nat): (bucket: nat)
    requires d < n
    ensures bucket < n
  {
    if Home(code, n) + d < n then Home(code, n) + d else Home(code, n) + d - n
  }

  // ---- The table represents the sequence of insertions ----

  // own[s] is the index of the insertion that filled bucket s, or -1.
  ghost predicate BucketOk(entries: seq<Entry>, log: seq<Entry>, off: seq<nat>, own: seq<int>, s: nat)
    requires |entries| == |own| && |off| == |log| && s < |own|
  {
    if own[s] == -1 then entries[s].rcode == ALL_ONES
    else 0 <= own[s] < |log| && entries[s] == log[own[s]] && log[own[s]].rcode != ALL_ONES
         && off[own[s]] < |own| && s == Slot(log[own[s]].rcode, off[own[s]], |own|)
  }

  // Insertion k sits off[k] buckets after its home, and every bucket before that was filled earlier.
  ghost predicate Placed(log: seq<Entry>, off: seq<nat>, own: seq<int>, k: nat)
    requires |off| == |log| && k < |log|
  {
    && off[k] < |own|
    && own[Slot(log[k].rcode, off[k], |own|)] == k
    && forall d :: 0 <= d < off[k] ==> 0 <= own[Slot(log[k].rcode, d, |own|)] < k
  }

  ghost predicate Represents(entries: seq<Entry>, log: seq<Entry>, off: seq<nat>, own: seq<int>) {
    && |entries| == |own| && |off| == |log|
    && (forall s: nat :: s < |own| ==> BucketOk(entries, log, off, own, s))
    && (forall k: nat :: k < |log| ==> Placed(log, off, own, k))
  }

  // log[k] is the first insertion under its key.
  ghost predicate IsFirst(log: seq<Entry>, key: Word, k: nat) {
    k < |log| && log[k].rcode == key && forall j :: 0 <= j < k ==> log[j].rcode != key
  }

  ghost predicate Holds(log: seq<Entry>, key: Word) {
    exists k :: 0 <= k < |log| && log[k].rcode == key
  }

  // A table with fewer insertions than buckets has a free bucket on every probe sequence.
  lemma FreeBucket(entries: seq<Entry>, log: seq<Entry>, off: seq<nat>, own: seq<int>, key: Word)
    returns (free: nat)
    requires Represents(entries, log, off, own) && |log| < |own|
    ensures free < |own| && own[Slot(key, free, |own|)] == -1
  {
    if forall d :: 0 <= d < |own| ==> own[Slot(key, d, |own|)] != -1 {
      Crowded(entries, log, off, own, key, |own|);
      OwnersAreEntries(entries, log, off, own, key, |own|);
      BoundedCard(Owners(own, key, |own|), |log|);
    }
    free :| 0 <= free < |own| && own[Slot(key, free, |own|)] == -1;
  }

  lemma NextModulo(x: nat, n: nat)
    requires x < n
    ensures (x + 1) % n == if x + 1 == n then 0 else x + 1
  {
  }

  // bucket = (bucket + 1) % nentries
  lemma SlotNext(code: Word, d: nat, n: nat)
    requires d + 1 < n
    ensures (Slot(code, d, n) + 1) % n == Slot(code, d + 1, n)
  {
    NextModulo(Slot(code, d, n), n);
  }

  ghost function Owners(own: seq<int>, key: Word, n: nat): set<nat>
    requires n <= |own|
  {
    if n == 0 then {}
    else Owners(own, key, n - 1) + (var k := own[Slot(key, n - 1, |own|)]; if k >= 0 then {k} else {})
  }

  lemma {:induction false} OwnerOf(own: seq<int>, key: Word, n: nat, k: nat) returns (d: nat)
    requires n <= |own| && k in Owners(own, key, n)
    ensures d < n && own[Slot(key, d, |own|)] == k
  {
    if own[Slot(key, n - 1, |own|)] == k {
      d := n - 1;
    } else {
      d := OwnerOf(own, key, n - 1, k);
    }
  }

  lemma {:induction false} Crowded(entries: seq<Entry>, log: seq<Entry>, off: seq<nat>, own: seq<int>, key: Word, n: nat)
    requires Represents(entries, log, off, own) && n <= |own|
    requires forall d :: 0 <= d < n ==> own[Slot(key, d, |own|)] != -1
    ensures |Owners(own, key, n)| == n
  {
    if n > 0 {
      Crowded(entries, log, off, own, key, n - 1);
      BucketOwner(entries, log, off, own, key, n - 1);
      NewOwner(entries, log, off, own, key, n - 1);
    }
  }

  lemma {:induction false} OwnersAreEntries(entries: seq<Entry>, log: seq<Entry>, off: seq<nat>, own: seq<int>, key: Word, n: nat)
    requires Represents(entries, log, off, own) && n <= |own|
    requires forall d :: 0 <= d < n ==> own[Slot(key, d, |own|)] != -1
    ensures forall k :: k in Owners(own, key, n) ==> k < |log|
  {
    if n > 0 {
      OwnersAreEntries(entries, log, off, own, key, n - 1);
      BucketOwner(entries, log, off, own, key, n - 1);
    }
  }

  lemma NewOwner(entries: seq<Entry>, log: seq<Entry>, off: seq<nat>, own: seq<int>, key: Word, n: nat)
    requires Represents(entries, log, off, own) && n < |own|
    requires forall d :: 0 <= d <= n ==> own[Slot(key, d, |own|)] != -1
    ensures own[Slot(key, n, |own|)] !in Owners(own, key, n)
  {
    var k := own[Slot(key, n, |own|)];
    if k in Owners(own, key, n) {
      var d := OwnerOf(own, key, n, k);
      DistinctOwners(entries, log, off, own, key, d, n);
    }
  }

  lemma BucketOwner(entries: seq<Entry>, log: seq<Entry>, off: seq<nat>, own: seq<int>, key: Word, d: nat)
    requires Represents(entries, log, off, own) && d < |own| && own[Slot(key, d, |own|)] != -1
    ensures 0 <= own[Slot(key, d, |own|)] < |log|
  {
    assert BucketOk(entries, log, off, own, Slot(key, d, |own|));
  }

  lemma DistinctOwners(entries: seq<Entry>, log: seq<Entry>, off: seq<nat>, own: seq<int>, key: Word, c: nat, d: nat)
    requires Represents(entries, log, off, own) && c < d < |own|
    requires own[Slot(key, c, |own|)] != -1
    ensures own[Slot(key, c, |own|)] != own[Slot(key, d, |own|)]
  {
    assert BucketOk(entries, log, off, own, Slot(key, c, |own|));
    assert BucketOk(entries, log, off, own, Slot(key, d, |own|));
  }

  // The probe for a key, stopped at the d-th bucket.
  ghost predicate ProbedPast(log: seq<Entry>, own: seq<int>, key: Word, d: nat)
    requires d <= |own|
  {
    forall c :: 0 <= c < d ==> 0 <= own[Slot(key, c, |own|)] < |log| && log[own[Slot(key, c, |own|)]].rcode != key
  }

  // Reaching a free bucket means the key was never inserted.
  lemma MissIsAbsent(entries: seq<Entry>, log: seq<Entry>, off: seq<nat>, own: seq<int>, key: Word, d: nat)
    requires Represents(entries, log, off, own) && d < |own|
    requires ProbedPast(log, own, key, d) && own[Slot(key, d, |own|)] == -1
    ensures !Holds(log, key)
  {
    forall k: nat | k < |log| ensures log[k].rcode != key {
      assert Placed(log, off, own, k);
    }
  }

  // Reaching the key finds its first insertion.
  lemma HitIsFirst(entries: seq<Entry>, log: seq<Entry>, off: seq<nat>, own: seq<int>, key: Word, d: nat)
    requires Represents(entries, log, off, own) && d < |own|
    requires ProbedPast(log, own, key, d)
    requires var k := own[Slot(key, d, |own|)]; 0 <= k < |log| && log[k].rcode == key
    ensures IsFirst(log, key, own[Slot(key, d, |own|)])
  {
    var k := own[Slot(key, d, |own|)];
    forall j | 0 <= j < k ensures log[j].rcode != key {
      assert Placed(log, off, own, j);
    }
  }

  // Filling the free bucket at the end of the probe keeps the representation.
  lemma InsertKeeps(entries: seq<Entry>, log: seq<Entry>, off: seq<nat>, own: seq<int>, e: Entry, d: nat)
    requires Represents(entries, log, off, own) && d < |own| && e.rcode != ALL_ONES
    requires own[Slot(e.rcode, d, |own|)] == -1
    requires forall c :: 0 <= c < d ==> own[Slot(e.rcode, c, |own|)] != -1
    ensures var s := Slot(e.rcode, d, |own|);
            Represents(entries[s := e], log + [e], off + [d], own[s := |log|])
  {
    var s, n := Slot(e.rcode, d, |own|), |own|;
    var entries', log', off', own' := entries[s := e], log + [e], off + [d], own[s := |log|];
    forall t: nat | t < n ensures BucketOk(entries', log', off', own', t) {
      assert BucketOk(entries, log, off, own, t);
    }
    forall k: nat | k < |log'| ensures Placed(log', off', own', k) {
      if k < |log| {
        assert Placed(log, off, own, k);
      } else {
        forall c | 0 <= c < d ensures 0 <= own'[Slot(e.rcode, c, n)] < k {
          BucketOwner(entries, log, off, own, e.rcode, c);
        }
      }
    }
  }

  class QuickDecode {
    const nentries: nat
    const entries: array<Entry>
    ghost var log: seq<Entry>
    ghost var off: seq<nat>
    ghost var own: seq<int>

    ghost predicate Valid()
      reads this, entries
    {
      nentries > 0 && entries.Length == nentries == |own| && Represents(entries[..], log, off, own)
    }

    constructor (nentries: nat)
      requires nentries > 0
      ensures Valid() && fresh(entries) && this.nentries == nentries && log == []
    {
      this.nentries := nentries;
      entries := new Entry[nentries](_ => Entry(ALL_ONES, 0, 0, 0));
      log, off, own := [], [], seq(nentries, _ => -1);
      new;
      forall s: nat | s < nentries ensures BucketOk(entries[..], log, off, own, s) {
      }
    }

    // The probing loop of quick_decode_add.
    method FindFree(code: Word) returns (bucket: nat, ghost d: nat)
      requires Valid() && |log| < nentries
      ensures d < nentries && bucket == Slot(code, d, nentries) && own[bucket] == -1
      ensures forall c :: 0 <= c < d ==> own[Slot(code, c, nentries)] != -1
    {
      bucket := Value(code) % nentries;
      d := 0;
      ghost var es := entries[..];
      ghost var free := FreeBucket(es, log, off, own, code);
      assert BucketOk(es, log, off, own, bucket);
      while entries[bucket].rcode != ALL_ONES
        invariant d <= free && bucket == Slot(code, d, nentries)
        invariant BucketOk(es, log, off, own, bucket)
        invariant forall c :: 0 <= c < d ==> own[Slot(code, c, nentries)] != -1
        decreases free - d
      {
        SlotNext(code, d, nentries);
        bucket := (bucket + 1) % nentries;
        d := d + 1;
        assert BucketOk(es, log, off, own, bucket);
      }
    }

    // quick_decode_add: the insertion is recorded at the end of the log.
    method Add(code: Word, id: nat, hamming: nat)
      requires Valid() && code != ALL_ONES && |log| < nentries
      modifies this, entries
      ensures Valid() && log == old(log) + [Entry(code, id, hamming, 0)]
    {
      var bucket, d := FindFree(code);
      ghost var e, es := Entry(code, id, hamming, 0), entries[..];
      InsertKeeps(es, log, off, own, e, d);
      entries[bucket] := Entry(code, id, hamming, 0);
      assert entries[..] == es[bucket := e];
      log, off, own := log + [e], off + [d], own[bucket := |log|];
    }

    // The inner loop of quick_decode_codeword: a hit is the first insertion under the key.
    method Lookup(rcode: Word) returns (found: bool, entry: Entry)
      requires Valid() && rcode != ALL_ONES && |log| < nentries
      ensures found <==> Holds(log, rcode)
      ensures found ==> exists k: nat :: IsFirst(log, rcode, k) && entry == log[k]
    {
      var bucket := Value(rcode) % nentries;
      ghost var d, es := 0, entries[..];
      ghost var free := FreeBucket(es, log, off, own, rcode);
      assert BucketOk(es, log, off, own, bucket);
      while entries[bucket].rcode != ALL_ONES
        invariant d <= free && bucket == Slot(rcode, d, nentries)
        invariant BucketOk(es, log, off, own, bucket)
        invariant ProbedPast(log, own, rcode, d)
        decreases free - d
      {
        if entries[bucket].rcode == rcode {
          HitIsFirst(es, log, off, own, rcode, d);
          return true, entries[bucket];
        }
        SlotNext(rcode, d, nentries);
        bucket := (bucket + 1) % nentries;
        d := d + 1;
        assert BucketOk(es, log, off, own, bucket);
      }
      MissIsAbsent(es, log, off, own, rcode, d);
      return false, Entry(ZERO, 65535, 255, 0);
    }
  }

  // ---- Filling the table for a tag family ----

  datatype Family = Family(codes: seq<Word>, nbits: nat) {
    // nbits-bit codes, at least one and fewer than 65536.
    ghost predicate Valid() {
      && 0 < |codes| < 65536 && nbits < 64
      && forall i :: 0 <= i < |codes| ==> Clean(codes[i], nbits)
    }
  }

  function Flip(w: Word, j: nat): Word {
    Xor(w, Bit(j))
  }

  // The entries that one code contributes.
  function PerCode(nbits: nat, maxhamming: int): nat {
    1 + (if maxhamming >= 1 then nbits else 0)
      + (if maxhamming >= 2 && nbits >= 1 then nbits * (nbits - 1) else 0)
      + (if maxhamming >= 3 && nbits >= 2 then nbits * (nbits - 1) * (nbits - 2) else 0)
  }

  // ---- What the filled table knows ----

  // The entry tells the truth about its code.
  ghost predicate EntryOk(e: Entry, f: Family, maxhamming: int)
    requires f.Valid()
  {
    && e.id < |f.codes| && e.rotation == 0 && Clean(e.rcode, f.nbits)
    && Distance(f.codes[e.id], e.rcode) == e.hamming
    && (e.hamming == 0 || e.hamming <= maxhamming)
  }

  // Every entry is truthful, ids never decrease along the log and stay up to `top`.
  ghost predicate Sound(log: seq<Entry>, f: Family, maxhamming: int, top: int)
    requires f.Valid()
  {
    && (forall k :: 0 <= k < |log| ==> EntryOk(log[k], f, maxhamming) && log[k].id <= top)
    && (forall j, k :: 0 <= j <= k < |log| ==> log[j].id <= log[k].id)
  }

  // The table knows every word within distance maxhamming of the code with this id.
  ghost predicate Knows(log: seq<Entry>, f: Family, maxhamming: int, id: nat)
    requires f.Valid() && id < |f.codes|
  {
    forall x: Word :: Clean(x, f.nbits) && Near(f.codes[id], x, maxhamming)
      ==> Entry(x, id, Distance(f.codes[id], x), 0) in log
  }

  ghost predicate Near(a: Word, b: Word, maxhamming: int) {
    Distance(a, b) == 0 || Distance(a, b) <= maxhamming
  }

  lemma FlipDistance(a: Word, b: Word, j: nat, n: nat)
    requires j < n < 64 && Clean(b, n)
    ensures Clean(Flip(b, j), n)
    ensures a[j] == b[j] ==> Diff(a, Flip(b, j)) == Diff(a, b) + {j}
    ensures a[j] != b[j] ==> Diff(a, Flip(b, j)) == Diff(a, b) - {j}
  {
  }

  // Flipping one, two or three different bits moves to exactly that distance.
  lemma FlipsAreNear(c: Word, j: nat, k: nat, m: nat, n: nat)
    requires m < k < j < n < 64 && Clean(c, n)
    ensures Clean(Flip(c, j), n) && Distance(c, Flip(c, j)) == 1
    ensures Clean(Flip(Flip(c, j), k), n) && Distance(c, Flip(Flip(c, j), k)) == 2
    ensures Clean(Flip(Flip(Flip(c, j), k), m), n) && Distance(c, Flip(Flip(Flip(c, j), k), m)) == 3
  {
    assert Diff(c, c) == {};
    FlipDistance(c, c, j, n);
    FlipDistance(c, Flip(c, j), k, n);
    FlipDistance(c, Flip(Flip(c, j), k), m, n);
  }

  lemma {:induction false} MaxOf(s: set<nat>) returns (j: nat)
    requires s != {}
    ensures j in s && forall x :: x in s ==> x <= j
  {
    var x :| x in s;
    if s == {x} {
      j := x;
    } else {
      var y := MaxOf(s - {x});
      j := if x < y then y else x;
      assert forall z :: z in s ==> z == x || z in s - {x};
    }
  }

  // The last bit where two words differ; flipping it brings them one closer.
  lemma LastDifference(c: Word, x: Word, n: nat) returns (j: nat)
    requires n < 64 && Clean(c, n) && Clean(x, n) && Distance(c, x) > 0
    ensures j < n && c[j] != x[j] && forall i :: i in Diff(c, x) ==> i <= j
    ensures Clean(Flip(c, j), n) && Diff(Flip(c, j), x) == Diff(c, x) - {j}
    ensures Distance(Flip(c, j), x) == Distance(c, x) - 1
  {
    j := MaxOf(Diff(c, x));
  }

  // Conversely, a word at distance one, two or three is reached by flipping that many bits, last one first.
  lemma NearIsFlips(c: Word, x: Word, n: nat)
    requires n < 64 && Clean(c, n) && Clean(x, n) && Distance(c, x) <= 3
    ensures Distance(c, x) == 0 ==> x == c
    ensures Distance(c, x) == 1 ==> exists j: nat :: j < n && x == Flip(c, j)
    ensures Distance(c, x) == 2 ==> exists j: nat, k: nat :: k < j < n && x == Flip(Flip(c, j), k)
    ensures Distance(c, x) == 3 ==>
      exists j: nat, k: nat, m: nat :: m < k < j < n && x == Flip(Flip(Flip(c, j), k), m)
  {
    if Distance(c, x) == 0 {
      SameWord(c, x);
    } else {
      var j := LastDifference(c, x, n);
      var c1 := Flip(c, j);
      if Distance(c1, x) == 0 {
        SameWord(c1, x);
      } else {
        var k := LastDifference(c1, x, n);
        assert k in Diff(c, x) && k != j;
        var c2 := Flip(c1, k);
        if Distance(c2, x) == 0 {
          SameWord(c2, x);
        } else {
          var m := LastDifference(c2, x, n);
          assert m in Diff(c1, x) && m != k;
          SameWord(Flip(c2, m), x);
        }
      }
    }
  }

  lemma SameWord(a: Word, b: Word)
    requires Distance(a, b) == 0
    ensures a == b
  {
    forall i: nat | i < 64 ensures a[i] == b[i] {
      assert i !in Diff(a, b);
    }
  }

  lemma SoundAppend(log: seq<Entry>, f: Family, maxhamming: int, e: Entry)
    requires f.Valid() && Sound(log, f, maxhamming, e.id) && EntryOk(e, f, maxhamming)
    ensures Sound(log + [e], f, maxhamming, e.id)
  {
  }

  // ---- quick_decode_init ----

  // What each of the loops over the neighbours of code i keeps.
  ghost predicate Filling(qd: QuickDecode, f: Family, maxhamming: int, i: nat, room: int)
    reads qd, qd.entries
  {
    f.Valid() && i < |f.codes| && qd.Valid() && Sound(qd.log, f, maxhamming, i) && |qd.log| + room <= qd.nentries
  }

  method Insert(qd: QuickDecode, f: Family, maxhamming: int, word: Word, i: nat, d: nat)
    requires Filling(qd, f, maxhamming, i, 1) && EntryOk(Entry(word, i, d, 0), f, maxhamming)
    modifies qd, qd.entries
    ensures Filling(qd, f, maxhamming, i, 0) && qd.log == old(qd.log) + [Entry(word, i, d, 0)]
  {
    assert !word[63] && ALL_ONES[63];
    SoundAppend(qd.log, f, maxhamming, Entry(word, i, d, 0));
    qd.Add(word, i, d);
  }

  method AddOneFlip(qd: QuickDecode, f: Family, maxhamming: int, i: nat)
    requires Filling(qd, f, maxhamming, i, f.nbits) && maxhamming >= 1
    modifies qd, qd.entries
    ensures Filling(qd, f, maxhamming, i, 0)
    ensures old(qd.log) <= qd.log && |qd.log| <= old(|qd.log|) + f.nbits
    ensures forall j :: 0 <= j < f.nbits ==> Entry(Flip(f.codes[i], j), i, 1, 0) in qd.log
  {
    var code := f.codes[i];
    for j := 0 to f.nbits
      invariant Filling(qd, f, maxhamming, i, f.nbits - j)
      invariant old(qd.log) <= qd.log && |qd.log| <= old(|qd.log|) + j
      invariant forall j' :: 0 <= j' < j ==> Entry(Flip(code, j'), i, 1, 0) in qd.log
    {
      OneFlipNear(code, j, f.nbits);
      Insert(qd, f, maxhamming, Xor(code, Bit(j)), i, 1);
    }
  }

  // The two-bit neighbours of code that flip j and a lower bit.
  ghost predicate HasSecond(log: seq<Entry>, code: Word, i: nat, j: nat) {
    forall k :: 0 <= k < j ==> Entry(Flip(Flip(code, j), k), i, 2, 0) in log
  }

  // The three-bit neighbours of code that flip j, k and a lower bit.
  ghost predicate HasLast(log: seq<Entry>, code: Word, i: nat, j: nat, k: nat) {
    forall m :: 0 <= m < k ==> Entry(Flip(Flip(Flip(code, j), k), m), i, 3, 0) in log
  }

  ghost predicate HasThird(log: seq<Entry>, code: Word, i: nat, j: nat) {
    forall k :: 0 <= k < j ==> HasLast(log, code, i, j, k)
  }

  lemma HasGrows(log: seq<Entry>, log': seq<Entry>, code: Word, i: nat)
    requires log <= log'
    ensures forall e :: e in log ==> e in log'
    ensures forall j :: HasSecond(log, code, i, j) ==> HasSecond(log', code, i, j)
    ensures forall j, k :: HasLast(log, code, i, j, k) ==> HasLast(log', code, i, j, k)
    ensures forall j :: HasThird(log, code, i, j) ==> HasThird(log', code, i, j)
  {
    assert forall e :: e in log ==> e in log';
  }

  method AddTwoFlips(qd: QuickDecode, f: Family, maxhamming: int, i: nat, ghost room: nat)
    requires f.nbits >= 1 && room == f.nbits * (f.nbits - 1)
    requires Filling(qd, f, maxhamming, i, room) && maxhamming >= 2
    modifies qd, qd.entries
    ensures Filling(qd, f, maxhamming, i, 0)
    ensures old(qd.log) <= qd.log && |qd.log| <= old(|qd.log|) + room
    ensures forall j :: 0 <= j < f.nbits ==> HasSecond(qd.log, f.codes[i], i, j)
  {
    ghost var base, budget := |qd.log|, 0;
    for j := 0 to f.nbits
      invariant budget == j * (f.nbits - 1) && budget <= room && Filling(qd, f, maxhamming, i, 0)
      invariant old(qd.log) <= qd.log && |qd.log| <= base + budget
      invariant forall j' :: 0 <= j' < j ==> HasSecond(qd.log, f.codes[i], i, j')
    {
      MulStep(j, f.nbits, f.nbits - 1, budget, room);
      ghost var before := qd.log;
      AddSecondFlips(qd, f, maxhamming, i, j);
      HasGrows(before, qd.log, f.codes[i], i);
      budget := budget + (f.nbits - 1);
    }
  }

  // The loop over k < j.
  method AddSecondFlips(qd: QuickDecode, f: Family, maxhamming: int, i: nat, j: nat)
    requires Filling(qd, f, maxhamming, i, j) && j < f.nbits && maxhamming >= 2
    modifies qd, qd.entries
    ensures Filling(qd, f, maxhamming, i, 0)
    ensures old(qd.log) <= qd.log && |qd.log| <= old(|qd.log|) + j
    ensures HasSecond(qd.log, f.codes[i], i, j)
  {
    var code := f.codes[i];
    for k := 0 to j
      invariant Filling(qd, f, maxhamming, i, j - k)
      invariant old(qd.log) <= qd.log && |qd.log| <= old(|qd.log|) + k
      invariant forall k' :: 0 <= k' < k ==> Entry(Flip(Flip(code, j), k'), i, 2, 0) in qd.log
    {
      TwoFlipsNear(code, j, k, f.nbits);
      Insert(qd, f, maxhamming, Xor(Xor(code, Bit(j)), Bit(k)), i, 2);
    }
  }

  method AddThreeFlips(qd: QuickDecode, f: Family, maxhamming: int, i: nat, ghost row: nat, ghost room: nat)
    requires f.nbits >= 2 && maxhamming >= 3
    requires row == (f.nbits - 1) * (f.nbits - 2) && room == f.nbits * row
    requires Filling(qd, f, maxhamming, i, room)
    modifies qd, qd.entries
    ensures Filling(qd, f, maxhamming, i, 0)
    ensures old(qd.log) <= qd.log && |qd.log| <= old(|qd.log|) + room
    ensures forall j :: 0 <= j < f.nbits ==> HasThird(qd.log, f.codes[i], i, j)
  {
    ghost var base, budget := |qd.log|, 0;
    for j := 0 to f.nbits
      invariant budget == j * row && budget <= room && Filling(qd, f, maxhamming, i, 0)
      invariant old(qd.log) <= qd.log && |qd.log| <= base + budget
      invariant forall j' :: 0 <= j' < j ==> HasThird(qd.log, f.codes[i], i, j')
    {
      MulStep(j, f.nbits, row, budget, room);
      MulLe(j, f.nbits - 1, f.nbits - 2);
      ghost var before := qd.log;
      AddThirdFlips(qd, f, maxhamming, i, j, j * (f.nbits - 2));
      HasGrows(before, qd.log, f.codes[i], i);
      budget := budget + row;
    }
  }

  // The two loops over m < k < j.
  method AddThirdFlips(qd: QuickDecode, f: Family, maxhamming: int, i: nat, j: nat, ghost room: nat)
    requires f.nbits >= 2 && room == j * (f.nbits - 2)
    requires Filling(qd, f, maxhamming, i, room) && j < f.nbits && maxhamming >= 3
    modifies qd, qd.entries
    ensures Filling(qd, f, maxhamming, i, 0)
    ensures old(qd.log) <= qd.log && |qd.log| <= old(|qd.log|) + room
    ensures HasThird(qd.log, f.codes[i], i, j)
  {
    ghost var base, budget := |qd.log|, 0;
    for k := 0 to j
      invariant budget == k * (f.nbits - 2) && budget <= room && Filling(qd, f, maxhamming, i, 0)
      invariant old(qd.log) <= qd.log && |qd.log| <= base + budget
      invariant forall k' :: 0 <= k' < k ==> HasLast(qd.log, f.codes[i], i, j, k')
    {
      MulStep(k, j, f.nbits - 2, budget, room);
      ghost var before := qd.log;
      AddLastFlips(qd, f, maxhamming, i, j, k);
      HasGrows(before, qd.log, f.codes[i], i);
      budget := budget + (f.nbits - 2);
    }
  }

  method AddLastFlips(qd: QuickDecode, f: Family, maxhamming: int, i: nat, j: nat, k: nat)
    requires Filling(qd, f, maxhamming, i, k) && k < j < f.nbits && maxhamming >= 3
    modifies qd, qd.entries
    ensures Filling(qd, f, maxhamming, i, 0)
    ensures old(qd.log) <= qd.log && |qd.log| <= old(|qd.log|) + k
    ensures HasLast(qd.log, f.codes[i], i, j, k)
  {
    var code := f.codes[i];
    for m := 0 to k
      invariant Filling(qd, f, maxhamming, i, k - m)
      invariant old(qd.log) <= qd.log && |qd.log| <= old(|qd.log|) + m
      invariant forall m' :: 0 <= m' < m ==> Entry(Flip(Flip(Flip(code, j), k), m'), i, 3, 0) in qd.log
    {
      FlipsAreNear(code, j, k, m, f.nbits);
      Insert(qd, f, maxhamming, Xor(Xor(Xor(code, Bit(j)), Bit(k)), Bit(m)), i, 3);
    }
  }

  lemma MulStep(j: nat, n: nat, c: nat, budget: nat, room: nat)
    requires j < n && budget == j * c && room == n * c
    ensures budget + c == (j + 1) * c && budget + c <= room
  {
    MulLe(j + 1, n, c);
  }

  lemma MulLe(a: nat, b: nat, c: nat)
    requires a <= b
    ensures a * c <= b * c
  {
  }

  lemma TwoFlipsNear(c: Word, j: nat, k: nat, n: nat)
    requires k < j < n < 64 && Clean(c, n)
    ensures Clean(Flip(Flip(c, j), k), n) && Distance(c, Flip(Flip(c, j), k)) == 2
  {
    OneFlipNear(c, j, n);
    FlipDistance(c, Flip(c, j), k, n);
  }

  lemma OneFlipNear(c: Word, j: nat, n: nat)
    requires j < n < 64 && Clean(c, n)
    ensures Clean(Flip(c, j), n) && Diff(c, Flip(c, j)) == {j} && Distance(c, Flip(c, j)) == 1
  {
    assert Diff(c, c) == {};
    FlipDistance(c, c, j, n);
  }

  // The loops together cover the whole ball around code i.
  lemma LoopsCoverBall(log: seq<Entry>, f: Family, maxhamming: int, i: nat)
    requires f.Valid() && i < |f.codes| && maxhamming <= 3
    requires Entry(f.codes[i], i, 0, 0) in log
    requires maxhamming >= 1 ==> forall j :: 0 <= j < f.nbits ==> Entry(Flip(f.codes[i], j), i, 1, 0) in log
    requires maxhamming >= 2 ==> forall j :: 0 <= j < f.nbits ==> HasSecond(log, f.codes[i], i, j)
    requires maxhamming >= 3 ==> forall j :: 0 <= j < f.nbits ==> HasThird(log, f.codes[i], i, j)
    ensures Knows(log, f, maxhamming, i)
  {
    var c, n := f.codes[i], f.nbits;
    forall x: Word | Clean(x, n) && Near(c, x, maxhamming) ensures Entry(x, i, Distance(c, x), 0) in log {
      NearIsFlips(c, x, n);
      if Distance(c, x) == 2 {
        var j: nat, k: nat :| k < j < n && x == Flip(Flip(c, j), k);
        assert HasSecond(log, c, i, j);
      } else if Distance(c, x) == 3 {
        var j: nat, k: nat, m: nat :| m < k < j < n && x == Flip(Flip(Flip(c, j), k), m);
        assert HasThird(log, c, i, j) && HasLast(log, c, i, j, k);
      }
    }
  }

  // How many ways there are to flip two bits, three bits, and the last two of three, in order.
  ghost function TwoFlips(n: nat): nat {
    if n >= 1 then n * (n - 1) else 0
  }

  ghost function LastFlips(n: nat): nat {
    if n >= 2 then (n - 1) * (n - 2) else 0
  }

  ghost function ThreeFlips(n: nat): nat {
    n * LastFlips(n)
  }

  // All the entries of one code.
  method AddCode(qd: QuickDecode, f: Family, maxhamming: int, i: nat)
    requires Filling(qd, f, maxhamming, i, PerCode(f.nbits, maxhamming))
    modifies qd, qd.entries
    ensures Filling(qd, f, maxhamming, i, 0)
    ensures old(qd.log) <= qd.log && |qd.log| <= old(|qd.log|) + PerCode(f.nbits, maxhamming)
    ensures maxhamming <= 3 ==> Knows(qd.log, f, maxhamming, i)
  {
    var n, code := f.nbits, f.codes[i];
    ghost var two, row, three := TwoFlips(n), LastFlips(n), ThreeFlips(n);
    PerCodeIs(n, maxhamming, two, row, three);
    assert Diff(code, code) == {};
    Insert(qd, f, maxhamming, code, i, 0);
    ghost var log1 := qd.log;
    if maxhamming >= 1 {
      AddOneFlip(qd, f, maxhamming, i);
    }
    ghost var log2 := qd.log;
    FlipTwo(qd, f, maxhamming, i, two);
    ghost var log3 := qd.log;
    FlipThree(qd, f, maxhamming, i, row, three);
    if maxhamming <= 3 {
      StagesCoverBall(log1, log2, log3, qd.log, f, maxhamming, i);
    }
  }

  method FlipTwo(qd: QuickDecode, f: Family, maxhamming: int, i: nat, ghost two: nat)
    requires two == TwoFlips(f.nbits)
    requires Filling(qd, f, maxhamming, i, if maxhamming >= 2 then two else 0)
    modifies qd, qd.entries
    ensures Filling(qd, f, maxhamming, i, 0)
    ensures old(qd.log) <= qd.log && |qd.log| <= old(|qd.log|) + (if maxhamming >= 2 then two else 0)
    ensures maxhamming >= 2 ==> forall j :: 0 <= j < f.nbits ==> HasSecond(qd.log, f.codes[i], i, j)
  {
    if maxhamming >= 2 && f.nbits >= 1 {
      AddTwoFlips(qd, f, maxhamming, i, two);
    }
  }

  method FlipThree(qd: QuickDecode, f: Family, maxhamming: int, i: nat, ghost row: nat, ghost three: nat)
    requires row == LastFlips(f.nbits) && three == ThreeFlips(f.nbits)
    requires Filling(qd, f, maxhamming, i, if maxhamming >= 3 then three else 0)
    modifies qd, qd.entries
    ensures Filling(qd, f, maxhamming, i, 0)
    ensures old(qd.log) <= qd.log && |qd.log| <= old(|qd.log|) + (if maxhamming >= 3 then three else 0)
    ensures maxhamming >= 3 ==> forall j :: 0 <= j < f.nbits ==> HasThird(qd.log, f.codes[i], i, j)
  {
    if maxhamming >= 3 && f.nbits >= 2 {
      AddThreeFlips(qd, f, maxhamming, i, row, three);
    }
  }

  // What each stage has inserted is still there at the end.
  lemma StagesCoverBall(log1: seq<Entry>, log2: seq<Entry>, log3: seq<Entry>, log: seq<Entry>, f: Family, maxhamming: int, i: nat)
    requires f.Valid() && i < |f.codes| && maxhamming <= 3 && log1 <= log2 <= log3 <= log
    requires Entry(f.codes[i], i, 0, 0) in log1
    requires maxhamming >= 1 ==> forall j :: 0 <= j < f.nbits ==> Entry(Flip(f.codes[i], j), i, 1, 0) in log2
    requires maxhamming >= 2 ==> forall j :: 0 <= j < f.nbits ==> HasSecond(log3, f.codes[i], i, j)
    requires maxhamming >= 3 ==> forall j :: 0 <= j < f.nbits ==> HasThird(log, f.codes[i], i, j)
    ensures Knows(log, f, maxhamming, i)
  {
    HasGrows(log1, log, f.codes[i], i);
    HasGrows(log2, log, f.codes[i], i);
    HasGrows(log3, log, f.codes[i], i);
    LoopsCoverBall(log, f, maxhamming, i);
  }

  lemma PerCodeIs(n: nat, maxhamming: int, two: nat, row: nat, three: nat)
    requires two == TwoFlips(n) && row == LastFlips(n) && three == ThreeFlips(n)
    ensures PerCode(n, maxhamming) == 1 + (if maxhamming >= 1 then n else 0)
      + (if maxhamming >= 2 then two else 0) + (if maxhamming >= 3 then three else 0)
  {
    if n >= 2 {
      assert n * (n - 1) * (n - 2) == n * ((n - 1) * (n - 2));
    }
  }

  // A table that holds exactly the words within distance maxhamming of the codes of f.
  ghost predicate Filled(qd: QuickDecode, f: Family, maxhamming: int)
    reads qd, qd.entries
  {
    && f.Valid() && qd.Valid() && |qd.log| < qd.nentries
    && Sound(qd.log, f, maxhamming, |f.codes|)
    && forall i :: 0 <= i < |f.codes| ==> Knows(qd.log, f, maxhamming, i)
  }

  /** quick_decode_init: fills a table three times as large as the number of entries; beyond three corrected
    bits it gives up and leaves the family without a table. */
  method Init(f: Family, maxhamming: int) returns (qd: Option<QuickDecode>)
    requires f.Valid()
    ensures qd.Some? <==> maxhamming <= 3
    ensures qd.Some? ==> fresh(qd.value) && Filled(qd.value, f, maxhamming)
    ensures qd.Some? ==> 3 * |qd.value.log| <= qd.value.nentries
    ensures qd.Some? ==> qd.value.nentries == 3 * (|f.codes| * PerCode(f.nbits, maxhamming))
  {
    var capacity := |f.codes| * PerCode(f.nbits, maxhamming);
    ghost var per := PerCode(f.nbits, maxhamming);
    BudgetIsProduct(per, |f.codes|);
    var table := new QuickDecode(capacity * 3);
    for i := 0 to |f.codes|
      invariant fresh(table) && fresh(table.entries)
      invariant table.Valid() && table.nentries == capacity * 3 && Sound(table.log, f, maxhamming, i)
      invariant |table.log| <= Budget(per, i)
      invariant i > 0 ==> maxhamming <= 3
      invariant forall j :: 0 <= j < i ==> Knows(table.log, f, maxhamming, j)
    {
      BudgetLeft(per, i, |f.codes|);
      ghost var before := table.log;
      AddCode(table, f, maxhamming, i);
      if maxhamming > 3 {
        return None;
      }
      KnowsGrows(before, table.log, f, maxhamming, i);
    }
    return Some(table);
  }

  // ---- The size of the table in 32 bits ----

  const WORD: int := 0x1_0000_0000

  // The value of x in a uint32_t and in an int.
  function Unsigned(x: int): nat {
    x % WORD
  }

  function Signed(x: int): int {
    if Unsigned(x) < WORD / 2 then Unsigned(x) else Unsigned(x) - WORD
  }

  // capacity += x, if the condition holds
  function Grown(capacity: int, x: int, when: bool): int {
    if when then Signed(capacity + x) else capacity
  }

  // nentries: the products are unsigned, as ncodes is, and capacity is an int.
  function TableSize(ncodes: nat, nbits: nat, maxhamming: int): int {
    var one := Unsigned(ncodes * nbits);
    var two := Unsigned(one * (nbits - 1));
    var three := Unsigned(two * (nbits - 2));
    Tripled(Signed(ncodes), one, two, three, maxhamming)
  }

  function Tripled(capacity: int, one: int, two: int, three: int, maxhamming: int): int {
    Signed(Grown(Grown(Grown(capacity, one, maxhamming >= 1), two, maxhamming >= 2), three, maxhamming >= 3) * 3)
  }

  predicate Congruent(x: int, y: int) {
    x % WORD == y % WORD
  }

  lemma WholeWords(x: int, k: int)
    ensures Congruent(x + k * WORD, x)
  {
  }

  lemma CongruentProduct(x: int, y: int, z: int)
    requires Congruent(x, y)
    ensures Congruent(x * z, y * z)
  {
    var k := x / WORD - y / WORD;
    assert x == y + k * WORD;
    assert x * z == y * z + (k * z) * WORD;
    WholeWords(y * z, k * z);
  }

  lemma SignedIs(x: int, y: int)
    requires Congruent(x, y)
    ensures Congruent(Signed(x), y) && (Signed(x) == y <==> -WORD / 2 <= y < WORD / 2)
  {
  }

  lemma UnsignedIs(x: int)
    ensures Congruent(Unsigned(x), x)
  {
  }

  lemma UnsignedProduct(x: int, y: int, z: int)
    requires Congruent(x, y)
    ensures Congruent(Unsigned(x * z), y * z)
  {
    CongruentProduct(x, y, z);
    UnsignedIs(x * z);
  }

  lemma CongruentSum(x: int, y: int, u: int, v: int)
    requires Congruent(x, y) && Congruent(u, v)
    ensures Congruent(x + u, y + v)
  {
    var k, l := x / WORD - y / WORD, u / WORD - v / WORD;
    assert x + u == y + v + (k + l) * WORD;
    WholeWords(y + v, k + l);
  }

  lemma GrownIs(capacity: int, planned: int, x: int, y: int, when: bool)
    requires Congruent(capacity, planned) && Congruent(x, y)
    ensures Congruent(Grown(capacity, x, when), if when then planned + y else planned)
  {
    CongruentSum(capacity, planned, x, y);
    SignedIs(capacity + x, planned + y);
  }

  // The sum of the terms that apply.
  function Planned(capacity: int, one: int, two: int, three: int, maxhamming: int): int {
    capacity + (if maxhamming >= 1 then one else 0) + (if maxhamming >= 2 then two else 0) + (if maxhamming >= 3 then three else 0)
  }

  /** The size computed in 32 bits is the one planned, three times the number of entries, if and only if that number is an
    int. */
  lemma TableSizeIff(ncodes: nat, nbits: nat, maxhamming: int)
    ensures TableSize(ncodes, nbits, maxhamming) == 3 * (ncodes * PerCode(nbits, maxhamming))
      <==> 3 * (ncodes * PerCode(nbits, maxhamming)) < WORD / 2
  {
    PlannedIs(ncodes, nbits, maxhamming);
    SizeIs(ncodes, nbits, maxhamming, ncodes * nbits, (ncodes * nbits) * (nbits - 1), (ncodes * nbits) * (nbits - 1) * (nbits - 2));
  }

  lemma SizeIs(ncodes: nat, nbits: nat, maxhamming: int, one: int, two: int, three: int)
    requires one == ncodes * nbits && two == one * (nbits - 1) && three == two * (nbits - 2)
    requires Planned(ncodes, one, two, three, maxhamming) >= 0
    ensures var planned := 3 * Planned(ncodes, one, two, three, maxhamming);
            TableSize(ncodes, nbits, maxhamming) == planned <==> planned < WORD / 2
  {
    var one' := Unsigned(one);
    var two' := Unsigned(one' * (nbits - 1));
    var three' := Unsigned(two' * (nbits - 2));
    UnsignedIs(one);
    UnsignedProduct(one', one, nbits - 1);
    UnsignedProduct(two', two, nbits - 2);
    SignedIs(ncodes, ncodes);
    TripledIs(Signed(ncodes), ncodes, one', one, two', two, three', three, maxhamming);
  }

  // A family of 48714 codes of 52 bits, as one of the library is, has too many entries with three corrected bits: the
  // size comes out negative.
  lemma TableTooLarge()
    ensures TableSize(48714, 52, 3) == -1701093170 && TableSize(48714, 52, 2) == 3 * (48714 * PerCode(52, 2))
  {
    TableSizeIff(48714, 52, 2);
    assert Unsigned(48714 * 52) == 2533128;
    assert Unsigned(2533128 * 51) == 129189528;
    assert Unsigned(129189528 * 50) == 2164509104;
    assert Grown(48714, 2533128, true) == 2581842;
    assert Grown(2581842, 129189528, true) == 131771370;
    assert Grown(131771370, 2164509104, true) == -1998686822;
    assert Signed(-1998686822 * 3) == -1701093170;
  }

  lemma PlannedIs(ncodes: nat, nbits: nat, maxhamming: int)
    ensures ncodes * PerCode(nbits, maxhamming)
      == Planned(ncodes, ncodes * nbits, (ncodes * nbits) * (nbits - 1), (ncodes * nbits) * (nbits - 1) * (nbits - 2), maxhamming)
  {
    var two, three := nbits * (nbits - 1), nbits * (nbits - 1) * (nbits - 2);
    assert nbits < 2 ==> three == 0 by {
      if nbits == 1 {
        assert two == 0;
      }
    }
    Distribute(ncodes, if maxhamming >= 1 then nbits else 0, if maxhamming >= 2 then two else 0, if maxhamming >= 3 then three else 0);
    Associate(ncodes, nbits, nbits - 1);
    Associate(ncodes, two, nbits - 2);
  }

  lemma Distribute(n: int, x: int, y: int, z: int)
    ensures n * (1 + x + y + z) == n + n * x + n * y + n * z
  {
  }

  lemma Associate(x: int, y: int, z: int)
    ensures x * y * z == x * (y * z)
  {
  }

  lemma TripledIs(c: int, p: int, one': int, one: int, two': int, two: int, three': int, three: int, maxhamming: int)
    requires Congruent(c, p) && Congruent(one', one) && Congruent(two', two) && Congruent(three', three)
    requires Planned(p, one, two, three, maxhamming) >= 0
    ensures var planned := 3 * Planned(p, one, two, three, maxhamming);
            Tripled(c, one', two', three', maxhamming) == planned <==> planned < WORD / 2
  {
    GrownIs(c, p, one', one, maxhamming >= 1);
    var c1, p1 := Grown(c, one', maxhamming >= 1), if maxhamming >= 1 then p + one else p;
    GrownIs(c1, p1, two', two, maxhamming >= 2);
    var c2, p2 := Grown(c1, two', maxhamming >= 2), if maxhamming >= 2 then p1 + two else p1;
    GrownIs(c2, p2, three', three, maxhamming >= 3);
    var c3, p3 := Grown(c2, three', maxhamming >= 3), if maxhamming >= 3 then p2 + three else p2;
    CongruentProduct(c3, p3, 3);
    SignedIs(c3 * 3, p3 * 3);
  }

  // What i codes may insert.
  ghost function Budget(per: nat, i: nat): nat {
    if i == 0 then 0 else Budget(per, i - 1) + per
  }

  lemma {:induction false} BudgetIsProduct(per: nat, i: nat)
    ensures Budget(per, i) == i * per
  {
    if i > 0 {
      BudgetIsProduct(per, i - 1);
      assert i * per == (i - 1) * per + per;
    }
  }

  lemma {:induction false} BudgetLeft(per: nat, i: nat, n: nat)
    requires i < n
    ensures Budget(per, i) + per <= Budget(per, n)
  {
    if i < n - 1 {
      BudgetLeft(per, i, n - 1);
    }
  }

  lemma KnowsGrows(log: seq<Entry>, log': seq<Entry>, f: Family, maxhamming: int, i: nat)
    requires f.Valid() && i <= |f.codes| && log <= log'
    requires forall j :: 0 <= j < i ==> Knows(log, f, maxhamming, j)
    ensures forall j :: 0 <= j < i ==> Knows(log', f, maxhamming, j)
  {
    assert forall e :: e in log ==> e in log';
    forall j | 0 <= j < i ensures Knows(log', f, maxhamming, j) {
      assert Knows(log, f, maxhamming, j);
    }
  }

  // ---- quick_decode_codeword ----

  // The naive decoder: the smallest id whose code is near x.
  ghost function NearestId(f: Family, maxhamming: int, x: Word, from: nat): (id: Option<nat>)
    requires f.Valid() && from <= |f.codes|
    ensures id.Some? ==> from <= id.value < |f.codes| && Near(f.codes[id.value], x, maxhamming)
    ensures id.Some? ==> forall i :: from <= i < id.value ==> !Near(f.codes[i], x, maxhamming)
    ensures id.None? ==> forall i :: from <= i < |f.codes| ==> !Near(f.codes[i], x, maxhamming)
    decreases |f.codes| - from
  {
    if from == |f.codes| then None
    else if Near(f.codes[from], x, maxhamming) then Some(from)
    else NearestId(f, maxhamming, x, from + 1)
  }

  const NO_DECODE := Entry(ZERO, 65535, 255, 0)

  // The naive decoder over the rotations ridx, ..., 3.
  ghost function NaiveDecode(f: Family, maxhamming: int, x: Word, ridx: nat): Entry
    requires f.Valid() && ridx <= 4
    decreases 4 - ridx
  {
    if ridx == 4 then NO_DECODE
    else match NearestId(f, maxhamming, x, 0)
      case Some(id) => Entry(x, id, Distance(f.codes[id], x), ridx)
      case None => NaiveDecode(f, maxhamming, Rotate90(x, f.nbits), ridx + 1)
  }

  lemma NearAreHeld(log: seq<Entry>, f: Family, maxhamming: int, key: Word)
    requires f.Valid() && Clean(key, f.nbits)
    requires forall i :: 0 <= i < |f.codes| ==> Knows(log, f, maxhamming, i)
    ensures forall i: nat :: i < |f.codes| && Near(f.codes[i], key, maxhamming) ==> HoldsFor(log, key, i)
  {
    forall i: nat | i < |f.codes| && Near(f.codes[i], key, maxhamming) ensures HoldsFor(log, key, i) {
      assert Knows(log, f, maxhamming, i);
      var e := Entry(key, i, Distance(f.codes[i], key), 0);
      assert e in log;
      var j :| 0 <= j < |log| && log[j] == e;
    }
  }

  ghost predicate HoldsFor(log: seq<Entry>, key: Word, id: nat) {
    exists j :: 0 <= j < |log| && log[j].rcode == key && log[j].id == id
  }

  // The first insertion under a key belongs to the smallest id near it, also when the balls of different
  // codes overlap.
  lemma FirstIsNearest(log: seq<Entry>, f: Family, maxhamming: int, key: Word, k: nat)
    requires f.Valid() && Sound(log, f, maxhamming, |f.codes|) && Clean(key, f.nbits)
    requires forall i :: 0 <= i < |f.codes| ==> Knows(log, f, maxhamming, i)
    requires IsFirst(log, key, k)
    ensures NearestId(f, maxhamming, key, 0) == Some(log[k].id)
    ensures log[k] == Entry(key, log[k].id, Distance(f.codes[log[k].id], key), 0)
  {
    assert EntryOk(log[k], f, maxhamming);
    NearAreHeld(log, f, maxhamming, key);
    assert forall i: nat :: HoldsFor(log, key, i) ==> log[k].id <= i;
  }

  lemma AbsentIsFar(log: seq<Entry>, f: Family, maxhamming: int, key: Word)
    requires f.Valid() && Clean(key, f.nbits) && !Holds(log, key)
    requires forall i :: 0 <= i < |f.codes| ==> Knows(log, f, maxhamming, i)
    ensures NearestId(f, maxhamming, key, 0) == None
  {
    NearAreHeld(log, f, maxhamming, key);
  }

  // One rotation: a hit is the naive decoder's answer, a miss means no code is near.
  method Query(qd: QuickDecode, f: Family, rcode: Word, ghost maxhamming: int) returns (found: bool, entry: Entry)
    requires Filled(qd, f, maxhamming) && Clean(rcode, f.nbits)
    ensures found <==> NearestId(f, maxhamming, rcode, 0).Some?
    ensures found ==> var id := NearestId(f, maxhamming, rcode, 0).value;
                      entry == Entry(rcode, id, Distance(f.codes[id], rcode), 0)
  {
    assert !rcode[63] && ALL_ONES[63];
    found, entry := qd.Lookup(rcode);
    if found {
      ghost var k: nat :| IsFirst(qd.log, rcode, k) && entry == qd.log[k];
      FirstIsNearest(qd.log, f, maxhamming, rcode, k);
    } else {
      AbsentIsFar(qd.log, f, maxhamming, rcode);
    }
  }

  // One turn of the loop: the answer, or the same question about the next rotation.
  method TryRotation(qd: QuickDecode, f: Family, rcode: Word, ridx: nat, ghost maxhamming: int)
    returns (found: bool, entry: Entry, next: Word)
    requires Filled(qd, f, maxhamming) && Clean(rcode, f.nbits) && ridx < 4
    ensures found ==> entry == NaiveDecode(f, maxhamming, rcode, ridx)
    ensures !found ==> Clean(next, f.nbits) && NaiveDecode(f, maxhamming, next, ridx + 1) == NaiveDecode(f, maxhamming, rcode, ridx)
  {
    found, entry := Query(qd, f, rcode, maxhamming);
    next := rcode;
    if found {
      entry := entry.(rotation := ridx);
    } else {
      next := Rotate90(rcode, f.nbits);
    }
  }

  // Hashing agrees with the naive decoder on every word, whatever the family; without a table nothing decodes.
  method Decode(f: Family, impl: Option<QuickDecode>, word: Word, ghost maxhamming: int) returns (entry: Entry)
    requires f.Valid() && Clean(word, f.nbits)
    requires impl.Some? ==> Filled(impl.value, f, maxhamming)
    ensures entry == if impl.Some? then NaiveDecode(f, maxhamming, word, 0) else NO_DECODE
  {
    var rcode := word;
    if impl.Some? {
      for ridx := 0 to 4
        invariant Clean(rcode, f.nbits)
        invariant NaiveDecode(f, maxhamming, word, 0) == NaiveDecode(f, maxhamming, rcode, ridx)
      {
        var found, e;
        found, e, rcode := TryRotation(impl.value, f, rcode, ridx, maxhamming);
        if found {
          return e;
        }
      }
    }
    return NO_DECODE;
  }
}
