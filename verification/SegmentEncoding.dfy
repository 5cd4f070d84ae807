/** A DHT segment as section B.2.4.2 of ITU-T T.81 writes it, and what common/pjpeg.c reads from it. */
module SegmentEncoding {
  import opened Powers
  import opened Shifts
  import opened Wrappers
  import opened BitReader
  import opened Huffman

  // Class, destination, the number of codes of each length from 1 to 16, and the symbols.
  datatype Spec = Spec(Tc: nat, Th: nat, counts: seq<Byte>, values: seq<Byte>)

  function Sum(counts: seq<Byte>): nat {
    if counts == [] then 0 else Sum(counts[..|counts| - 1]) + counts[|counts| - 1]
  }

  // What the codes take up of the 65536 windows: a code of n bits 2 to the 16 - n of them.
  function Weight(counts: seq<Byte>): nat
    requires |counts| <= 16
  {
    if counts == [] then 0 else Weight(counts[..|counts| - 1]) + counts[|counts| - 1] * Pow2(16 - |counts|)
  }

  predicate Writable(t: Spec) {
    t.Tc < 16 && t.Th < 16 && |t.counts| == 16 && |t.values| == Sum(t.counts)
  }

  predicate AllWritable(ts: seq<Spec>) {
    forall i :: 0 <= i < |ts| ==> Writable(ts[i])
  }

  // The decoder has two tables of each class, and leaves the window of ones without a code.
  predicate Accepted(t: Spec)
    requires Writable(t)
  {
    t.Tc < 2 && t.Th < 2 && Weight(t.counts) < 0x1_0000
  }

  function Written(t: Spec): seq<Byte>
    requires Writable(t)
  {
    [16 * t.Tc + t.Th] + t.counts + t.values
  }

  function AllWritten(ts: seq<Spec>): seq<Byte>
    requires AllWritable(ts)
  {
    if ts == [] then [] else Written(ts[0]) + AllWritten(ts[1..])
  }

  // The length, of itself and the tables, and the tables.
  function SegmentOf(ts: seq<Spec>): seq<Byte>
    requires AllWritable(ts) && |AllWritten(ts)| + 2 < 0x1_0000
  {
    var length := |AllWritten(ts)| + 2;
    [length / 256, length % 256] + AllWritten(ts)
  }

  // What is read: slots 0 and 1 are DC tables, 2 and 3 AC tables.
  function Meant(t: Spec): Description {
    Description(2 * t.Tc + t.Th, [0] + t.counts, t.values)
  }

  function AllMeant(ts: seq<Spec>): seq<Description> {
    if ts == [] then [] else [Meant(ts[0])] + AllMeant(ts[1..])
  }

  // ---- Counts ----

  lemma {:induction false} StartRepeated(sizes: seq<nat>, n: nat, k: nat)
    requires 1 <= n <= 16
    ensures Start(sizes + Repeated(n, k), |sizes| + k) == Start(sizes, |sizes|) + k * Pow2(16 - n)
  {
    if k == 0 {
      assert sizes + Repeated(n, 0) == sizes;
    } else {
      var shorter := sizes + Repeated(n, k - 1);
      assert sizes + Repeated(n, k) == shorter + [n];
      StartRepeated(sizes, n, k - 1);
      StartPrefix(shorter, [n], |shorter|);
      ShlOne(16 - n);
      OneMore(k, Pow2(16 - n));
    }
  }

  lemma OneMore(k: nat, p: nat)
    requires k > 0
    ensures (k - 1) * p + p == k * p
  {
  }

  // HUFFSIZE has as many entries as there are codes, and the table is filled by their weight.
  lemma {:induction false} SizesOfCounts(counts: seq<Byte>, n: nat)
    requires n <= |counts| <= 16
    ensures |HuffSize([0] + counts, n)| == Sum(counts[..n])
    ensures Start(HuffSize([0] + counts, n), Sum(counts[..n])) == Weight(counts[..n])
  {
    if n > 0 {
      SizesOfCounts(counts, n - 1);
      assert counts[..n][..n - 1] == counts[..n - 1];
      StartRepeated(HuffSize([0] + counts, n - 1), n, counts[n - 1]);
    }
  }

  // ---- Reading ----

  // The bytes from k on are s.
  ghost predicate At(bytes: seq<Byte>, k: nat, s: seq<Byte>) {
    k + |s| <= |bytes| && bytes[k..k + |s|] == s
  }

  lemma AtParts(bytes: seq<Byte>, k: nat, s: seq<Byte>, t: seq<Byte>)
    requires At(bytes, k, s + t)
    ensures At(bytes, k, s) && At(bytes, k + |s|, t)
  {
    var w := bytes[k..k + |s + t|];
    assert bytes[k..k + |s|] == w[..|s|] == s;
    assert bytes[k + |s|..k + |s| + |t|] == w[|s|..] == t;
  }

  lemma {:induction false} OctetsOfBytes(bytes: seq<Byte>, p: nat, k: nat, s: seq<Byte>, n: nat)
    requires At(bytes, k, s) && p == 8 * k && n == |s|
    ensures OctetsAt(bytes, p, n) == s
  {
    forall i | 0 <= i < |s|
      ensures s[i] == OctetAt(bytes, p, i)
    {
      ByteBits(bytes, k + i);
      assert s[i] == bytes[k..k + |s|][i];
    }
    OctetsUnique(bytes, p, s);
  }

  lemma SpecParts(bytes: seq<Byte>, k: nat, t: Spec, header: Byte)
    requires Writable(t) && At(bytes, k, Written(t)) && header == 16 * t.Tc + t.Th
    ensures At(bytes, k, [header]) && At(bytes, k + 1, t.counts) && At(bytes, k + 17, t.values)
  {
    AtParts(bytes, k, [header] + t.counts, t.values);
    AtParts(bytes, k, [header], t.counts);
  }

  lemma HeaderRead(bytes: seq<Byte>, p: nat, k: nat, header: Byte)
    requires At(bytes, k, [header]) && p == 8 * k
    ensures OctetsAt(bytes, p, 1) == [header]
  {
    OctetsOfBytes(bytes, p, k, [header], 1);
  }

  lemma CountsRead(bytes: seq<Byte>, p: nat, k: nat, t: Spec)
    requires Writable(t) && At(bytes, k + 1, t.counts) && p == 8 * k
    ensures OctetsAt(bytes, p + 8, 16) == t.counts
  {
    OctetsOfBytes(bytes, p + 8, k + 1, t.counts, 16);
  }

  lemma ValuesRead(bytes: seq<Byte>, p: nat, k: nat, t: Spec)
    requires At(bytes, k + 17, t.values) && p == 8 * k
    ensures OctetsAt(bytes, p + 136, |t.values|) == t.values
  {
    OctetsOfBytes(bytes, p + 136, k + 17, t.values, |t.values|);
  }

  // What the three parts describe.
  lemma Described(bytes: seq<Byte>, p: nat, t: Spec, header: Byte, d: Description)
    requires Writable(t) && OctetsAt(bytes, p, 1) == [header] && OctetsAt(bytes, p + 8, 16) == t.counts
    requires OctetsAt(bytes, p + 136, |t.values|) == t.values
    requires d == Description(TableIndex(header), [0] + t.counts, t.values)
    ensures DescriptionAt(bytes, p) == d
    ensures Acceptable(d) <==> d.slot < 4 && Weight(t.counts) < 0x1_0000
  {
    SizesOfCounts(t.counts, 16);
    assert t.counts[..16] == t.counts;
  }

  lemma MeantOrNot(t: Spec, header: Byte)
    requires Writable(t) && header == 16 * t.Tc + t.Th
    ensures TableIndex(header) < 4 <==> t.Tc < 2 && t.Th < 2
    ensures TableIndex(header) < 4 ==> TableIndex(header) == 2 * t.Tc + t.Th
  {
    SlotOf(t.Tc, t.Th);
  }

  // A table that was written is read as it was meant, if its header names one.
  lemma ReadsSpec(bytes: seq<Byte>, p: nat, k: nat, t: Spec) returns (d: Description)
    requires Writable(t) && At(bytes, k, Written(t)) && p == 8 * k
    ensures d == DescriptionAt(bytes, p) && d.values == t.values && (Accepted(t) ==> d == Meant(t))
    ensures |d.L| == 17 && (Acceptable(d) <==> Accepted(t))
  {
    var header: Byte := 16 * t.Tc + t.Th;
    SpecParts(bytes, k, t, header);
    HeaderRead(bytes, p, k, header);
    CountsRead(bytes, p, k, t);
    ValuesRead(bytes, p, k, t);
    d := Description(TableIndex(header), [0] + t.counts, t.values);
    Described(bytes, p, t, header, d);
    MeantOrNot(t, header);
  }

  predicate AllAccepted(ts: seq<Spec>)
    requires AllWritable(ts)
  {
    forall i :: 0 <= i < |ts| ==> Accepted(ts[i])
  }

  lemma FirstAccepted(ts: seq<Spec>)
    requires AllWritable(ts) && ts != []
    ensures AllAccepted(ts) <==> Accepted(ts[0]) && AllAccepted(ts[1..])
  {
    if Accepted(ts[0]) && AllAccepted(ts[1..]) {
      forall i | 0 <= i < |ts|
        ensures Accepted(ts[i])
      {
        assert i > 0 ==> ts[i] == ts[1..][i - 1];
      }
    }
  }

  // One table of several.
  lemma ParseFirst(bytes: seq<Byte>, p: nat, length: nat, d: Description, p': nat, length': nat)
    requires length == 17 + |d.values| + length' < 0x1_0000 && d == DescriptionAt(bytes, p)
    requires p' == p + 8 + 128 + 8 * |d.values|
    ensures Acceptable(d) ==> Parse(bytes, p, length) == Before([d], Parse(bytes, p', length'))
    ensures !Acceptable(d) ==> Parse(bytes, p, length) == Malformed
  {
    assert (length - 17 - |d.values|) % 65536 == length';
  }

  lemma {:induction false} ReadsTables(bytes: seq<Byte>, p: nat, k: nat, ts: seq<Spec>, s: seq<Byte>, end: nat)
    requires AllWritable(ts) && s == AllWritten(ts) && |s| < 0x1_0000 && At(bytes, k, s) && p == 8 * k && end == p + 8 * |s|
    ensures Parse(bytes, p, |s|) == if AllAccepted(ts) then Segment(AllMeant(ts), end) else Malformed
    decreases |ts|
  {
    if ts != [] {
      var t, rest := ts[0], AllWritten(ts[1..]);
      AtParts(bytes, k, Written(t), rest);
      var d := ReadsSpec(bytes, p, k, t);
      var p' := p + 8 + 128 + 8 * |t.values|;
      ParseFirst(bytes, p, |s|, d, p', |rest|);
      ReadsTables(bytes, p', k + 17 + |t.values|, ts[1..], rest, end);
      FirstAccepted(ts);
    }
  }

  // The length counter, high byte first.
  lemma ReadsLength(bytes: seq<Byte>, p: nat, k: nat, high: Byte, low: Byte)
    requires At(bytes, k, [high, low]) && 2 <= 256 * high + low && p == 8 * k
    ensures LengthAt(bytes, p) == 256 * high + low - 2
  {
    assert [high, low] == [high] + [low];
    AtParts(bytes, k, [high], [low]);
    ReadsByte(bytes, p, k, high, 8);
    ReadsByte(bytes, p + 8, k + 1, low, 8);
    JoinedBytes(bytes, p, 8, COUNTER_BITS, high, low);
  }

  lemma ReadsByte(bytes: seq<Byte>, p: nat, k: nat, b: Byte, n: nat)
    requires At(bytes, k, [b]) && p == 8 * k && n == 8
    ensures BitsAt(bytes, p, n) == b
  {
    assert bytes[k..k + 1][0] == bytes[k];
    ByteBits(bytes, k);
  }

  lemma JoinedBytes(bytes: seq<Byte>, p: nat, n: nat, both: nat, high: Byte, low: Byte)
    requires n == 8 && both == 16 && BitsAt(bytes, p, n) == high && BitsAt(bytes, p + n, n) == low
    ensures BitsAt(bytes, p, both) == 256 * high + low
  {
    Joined(bytes, p, n, n);
    assert Pow2(8) == 256;
  }

  lemma {:induction false} Joined(bytes: seq<Byte>, p: nat, m: nat, n: nat)
    ensures BitsAt(bytes, p, m + n) == BitsAt(bytes, p, m) * Pow2(n) + BitsAt(bytes, p + m, n)
  {
    if n > 0 {
      Joined(bytes, p, m, n - 1);
      Doubled(BitsAt(bytes, p, m), Pow2(n - 1), BitsAt(bytes, p + m, n - 1));
    }
  }

  lemma Doubled(a: nat, p: nat, b: nat)
    ensures 2 * (a * p + b) == a * (2 * p) + 2 * b
  {
  }

  // The counter and the tables behind it.
  lemma SegmentParts(bytes: seq<Byte>, k: nat, ts: seq<Spec>, s: seq<Byte>) returns (high: Byte, low: Byte)
    requires AllWritable(ts) && s == AllWritten(ts) && |s| + 2 < 0x1_0000 && At(bytes, k, SegmentOf(ts))
    ensures 256 * high + low == |s| + 2 && At(bytes, k, [high, low]) && At(bytes, k + 2, s)
  {
    high, low := (|s| + 2) / 256, (|s| + 2) % 256;
    assert SegmentOf(ts) == [high, low] + s;
    AtParts(bytes, k, [high, low], s);
  }

  lemma ReadsAll(bytes: seq<Byte>, p: nat, p': nat, length: nat, segment: Segment)
    requires LengthAt(bytes, p) == length && p' == p + COUNTER_BITS && Parse(bytes, p', length) == segment
    ensures SegmentAt(bytes, p) == segment
  {
  }

  /** A segment is read as the tables that were written into it, in their order and up to its end, or refused, if one of
    them names no table or takes all windows. */
  lemma SegmentRead(bytes: seq<Byte>, p: nat, k: nat, ts: seq<Spec>)
    requires AllWritable(ts) && |AllWritten(ts)| + 2 < 0x1_0000 && At(bytes, k, SegmentOf(ts)) && p == 8 * k
    ensures SegmentAt(bytes, p) == if AllAccepted(ts) then Segment(AllMeant(ts), p + 8 * |SegmentOf(ts)|) else Malformed
  {
    var s := AllWritten(ts);
    var p', end := p + COUNTER_BITS, p + 8 * |SegmentOf(ts)|;
    var high, low := SegmentParts(bytes, k, ts, s);
    ReadsLength(bytes, p, k, high, low);
    ReadsTables(bytes, p', k + 2, ts, s, end);
    ReadsAll(bytes, p, p', |s|, if AllAccepted(ts) then Segment(AllMeant(ts), end) else Malformed);
  }

  // The decoder on such a segment.
  method ReadWritten(bd: BitDecoder, tables: seq<array<HuffCode>>, present: seq<bool>, ghost k: nat, ghost ts: seq<Spec>)
    returns (ok: bool, present': seq<bool>)
    requires bd.Valid() && TablesOk(tables) && |present| == 4 && bd.pos == 8 * k
    requires AllWritable(ts) && |AllWritten(ts)| + 2 < 0x1_0000 && At(bd.Stream(), k, SegmentOf(ts))
    modifies bd, set i | 0 <= i < |tables| :: tables[i]
    ensures bd.Valid() && (ok <==> AllAccepted(ts))
    ensures ok ==> bd.pos == old(bd.pos) + 8 * |SegmentOf(ts)| && TablesOk(tables)
    ensures ok ==> Holds(Contents(tables), old(Contents(tables)), AllMeant(ts)) && Marks(present', present, AllMeant(ts))
  {
    SegmentRead(bd.Stream(), bd.pos, k, ts);
    ghost var ds;
    ok, present', ds := ReadSegment(bd, tables, present);
  }
}
