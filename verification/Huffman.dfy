/** Huffman decoding in common/pjpeg.c: the 65536-entry table built from a DHT segment, and the symbol decoder
  that looks 16 bits up in it, against Annex C and section F.2.2 of ITU-T T.81. */
module Huffman {
  import opened Powers
  import opened Shifts
  import opened Wrappers
  import opened BitReader

  datatype HuffCode = HuffCode(nbits: nat, code: Byte)

  const TABLE_SIZE: nat := 65536

  // The longest code has as many bits.
  const MAX_LENGTH: nat := 16

  // ---- Annex C of ITU-T T.81 ----

  // HUFFSIZE: the code lengths of all symbols, from the counts per length (section C.2, figure C.1).
  function HuffSize(L: seq<Byte>, upTo: nat): seq<nat>
    requires upTo < |L|
  {
    if upTo == 0 then [] else HuffSize(L, upTo - 1) + Repeated(upTo, L[upTo])
  }

  // All of them.
  function Sizes(L: seq<Byte>): seq<nat>
    requires L != []
  {
    HuffSize(L, |L| - 1)
  }

  ghost predicate SizesOk(sizes: seq<nat>) {
    && (forall k :: 0 <= k < |sizes| ==> 1 <= sizes[k] <= 16)
    && forall j, k :: 0 <= j <= k < |sizes| ==> sizes[j] <= sizes[k]
  }

  lemma {:induction false} HuffSizeOk(L: seq<Byte>, upTo: nat)
    requires upTo < |L| && upTo <= 16
    ensures SizesOk(HuffSize(L, upTo)) && forall k :: 0 <= k < |HuffSize(L, upTo)| ==> HuffSize(L, upTo)[k] <= upTo
  {
    if upTo > 0 {
      HuffSizeOk(L, upTo - 1);
    }
  }

  // HUFFCODE: codes count up, with a shift whenever the length grows (section C.2, figure C.2).
  function Code(sizes: seq<nat>, k: nat): nat
    requires k < |sizes|
  {
    if k == 0 then 0
    else if sizes[k] >= sizes[k - 1] then Shl(Code(sizes, k - 1) + 1, sizes[k] - sizes[k - 1])
    else Code(sizes, k - 1) + 1
  }

  // ---- The table ----

  // The first table entry of symbol k.
  function Start(sizes: seq<nat>, k: nat): nat
    requires k <= |sizes|
  {
    if k == 0 then 0 else Start(sizes, k - 1) + (if sizes[k - 1] <= 16 then Shl(1, 16 - sizes[k - 1]) else 1)
  }

  lemma {:induction false} StartMono(sizes: seq<nat>, j: nat, k: nat)
    requires j <= k <= |sizes|
    ensures Start(sizes, j) <= Start(sizes, k)
  {
    if j < k {
      StartMono(sizes, j, k - 1);
    }
  }

  lemma {:induction false} StartPrefix(sizes: seq<nat>, more: seq<nat>, k: nat)
    requires k <= |sizes|
    ensures Start(sizes + more, k) == Start(sizes, k)
  {
    if k > 0 {
      StartPrefix(sizes, more, k - 1);
    }
  }

  // The running table position is the canonical code, left-aligned in 16 bits.
  lemma {:induction false} StartIsCode(sizes: seq<nat>, k: nat)
    requires SizesOk(sizes) && k < |sizes|
    ensures Start(sizes, k) == Shl(Code(sizes, k), 16 - sizes[k])
    ensures Start(sizes, k + 1) == Shl(Code(sizes, k) + 1, 16 - sizes[k])
  {
    if k == 0 {
      ShlAdd(0, 0, 16 - sizes[0]);
    } else {
      StartIsCode(sizes, k - 1);
      ShlShl(Code(sizes, k - 1) + 1, sizes[k] - sizes[k - 1], 16 - sizes[k]);
    }
    ShlAdd(Code(sizes, k), 1, 16 - sizes[k]);
  }

  // A 16-bit window begins with code k.
  ghost predicate BeginsWith(sizes: seq<nat>, k: nat, window: nat)
    requires k < |sizes| && sizes[k] <= 16
  {
    Shr(window, 16 - sizes[k]) == Code(sizes, k)
  }

  lemma {:induction false} BeginsWithIff(sizes: seq<nat>, k: nat, window: nat)
    requires SizesOk(sizes) && k < |sizes|
    ensures BeginsWith(sizes, k, window) <==> Start(sizes, k) <= window < Start(sizes, k + 1)
  {
    StartIsCode(sizes, k);
    ShrAtLeast(window, 16 - sizes[k], Code(sizes, k));
    ShrAtLeast(window, 16 - sizes[k], Code(sizes, k) + 1);
  }

  // Every window that begins with a code maps to that code's length and symbol.
  ghost predicate TableAgrees(table: seq<HuffCode>, sizes: seq<nat>, values: seq<Byte>) {
    && |table| == TABLE_SIZE && |values| == |sizes| && SizesOk(sizes)
    && forall k, window :: 0 <= k < |sizes| && 0 <= window < TABLE_SIZE && BeginsWith(sizes, k, window)
         ==> table[window] == HuffCode(sizes[k], values[k])
  }

  // No entry asks for more bits than the decoder has looked at.
  ghost predicate Bounded(table: seq<HuffCode>) {
    forall w :: 0 <= w < |table| ==> table[w].nbits <= 16
  }

  ghost predicate FilledAt(table: seq<HuffCode>, sizes: seq<nat>, values: seq<Byte>, k: nat)
    requires |table| == TABLE_SIZE && |values| == |sizes| && k < |sizes|
  {
    forall w :: Start(sizes, k) <= w < Start(sizes, k + 1) && w < TABLE_SIZE ==> table[w] == HuffCode(sizes[k], values[k])
  }

  ghost predicate Filled(table: seq<HuffCode>, sizes: seq<nat>, values: seq<Byte>) {
    && |table| == TABLE_SIZE && |values| == |sizes|
    && forall k :: 0 <= k < |sizes| ==> FilledAt(table, sizes, values, k)
  }

  lemma {:induction false} FilledAgrees(table: seq<HuffCode>, sizes: seq<nat>, values: seq<Byte>)
    requires Filled(table, sizes, values) && SizesOk(sizes)
    ensures TableAgrees(table, sizes, values)
  {
    forall k, window | 0 <= k < |sizes| && 0 <= window < TABLE_SIZE && BeginsWith(sizes, k, window)
      ensures table[window] == HuffCode(sizes[k], values[k])
    {
      assert FilledAt(table, sizes, values, k);
      BeginsWithIff(sizes, k, window);
    }
  }

  // The next n bytes of the stream at bit position p.
  ghost predicate BytesFrom(bytes: seq<Byte>, p: nat, s: seq<Byte>) {
    forall k :: 0 <= k < |s| ==> s[k] == OctetAt(bytes, p, k)
  }

  ghost function OctetAt(bytes: seq<Byte>, p: nat, k: nat): nat {
    BitsAt(bytes, p + 8 * k, 8)
  }

  lemma {:induction false} NextByte(bytes: seq<Byte>, p: nat, s: seq<Byte>, b: Byte)
    requires BytesFrom(bytes, p, s) && b == BitsAt(bytes, p + 8 * |s|, 8)
    ensures BytesFrom(bytes, p, s + [b])
  {
  }

  method ReadCounts(bd: BitDecoder) returns (L: seq<Byte>)
    requires bd.Valid()
    modifies bd
    ensures bd.Valid() && bd.pos == old(bd.pos) + 128
    ensures |L| == 17 && L[0] == 0 && BytesFrom(bd.Stream(), old(bd.pos), L[1..])
  {
    L := [0];
    assert Pow2(8) == 256;
    for nbits := 1 to 17
      invariant bd.Valid() && bd.pos == old(bd.pos) + 8 * (nbits - 1)
      invariant |L| == nbits && L[0] == 0 && BytesFrom(bd.Stream(), old(bd.pos), L[1..])
    {
      var b := bd.Consume(8);
      NextByte(bd.Stream(), old(bd.pos), L[1..], b);
      assert (L + [b])[1..] == L[1..] + [b];
      L := L + [b];
    }
  }

  // Fills the entries of one code.
  method FillCode(huff: array<HuffCode>, start: nat, ncodes: nat, entry: HuffCode)
    requires huff.Length == TABLE_SIZE && start + ncodes <= TABLE_SIZE
    modifies huff
    ensures forall w :: 0 <= w < TABLE_SIZE ==> huff[w] == if start <= w < start + ncodes then entry else old(huff[w])
  {
    var code_pos := start;
    for ci := 0 to ncodes
      invariant code_pos == start + ci
      invariant forall w :: 0 <= w < TABLE_SIZE ==> huff[w] == if start <= w < code_pos then entry else old(huff[w])
    {
      huff[code_pos] := entry;
      code_pos := code_pos + 1;
    }
  }

  // One more symbol: its entries follow those of the symbols before it.
  lemma {:induction false} FillKeeps(table: seq<HuffCode>, table': seq<HuffCode>, sizes: seq<nat>, values: seq<Byte>, size: nat, value: Byte)
    requires Filled(table, sizes, values) && |table'| == TABLE_SIZE && size <= 16
    requires forall w :: 0 <= w < Start(sizes, |sizes|) && w < TABLE_SIZE ==> table'[w] == table[w]
    requires forall w :: 0 <= w - Start(sizes, |sizes|) < Shl(1, 16 - size) && w < TABLE_SIZE ==> table'[w] == HuffCode(size, value)
    ensures Filled(table', sizes + [size], values + [value])
    ensures Start(sizes + [size], |sizes| + 1) == Start(sizes, |sizes|) + Shl(1, 16 - size)
  {
    var sizes', values' := sizes + [size], values + [value];
    StartPrefix(sizes, [size], |sizes|);
    forall k | 0 <= k < |sizes'|
      ensures FilledAt(table', sizes', values', k)
    {
      if k < |sizes| {
        OldCodeKept(table, table', sizes, values, size, value, k);
      }
    }
  }

  lemma {:induction false} OldCodeKept(table: seq<HuffCode>, table': seq<HuffCode>, sizes: seq<nat>, values: seq<Byte>, size: nat, value: Byte, k: nat)
    requires Filled(table, sizes, values) && |table'| == TABLE_SIZE && k < |sizes|
    requires forall w :: 0 <= w < Start(sizes, |sizes|) && w < TABLE_SIZE ==> table'[w] == table[w]
    ensures FilledAt(table', sizes + [size], values + [value], k)
  {
    assert FilledAt(table, sizes, values, k);
    StartPrefix(sizes, [size], k);
    StartPrefix(sizes, [size], k + 1);
    StartMono(sizes, k + 1, |sizes|);
  }

  lemma {:induction false} RepeatSplit(size: nat, m: nat, n: nat)
    requires m <= n
    ensures Repeated(size, n) == Repeated(size, m) + Repeated(size, n - m)
  {
  }

  lemma {:induction false} Concat<T>(a: seq<T>, b: seq<T>, c: seq<T>, d: seq<T>)
    ensures (a + (b + c)) + [] + d == a + b + (c + d)
  {
  }

  // The lengths listed so far begin the list of all lengths.
  lemma {:induction false} HuffSizePrefix(L: seq<Byte>, nbits: nat, n: nat) returns (rest: seq<nat>)
    requires |L| == 17 && 1 <= nbits <= 16 && n <= L[nbits]
    ensures Sizes(L) == HuffSize(L, nbits - 1) + Repeated(nbits, n) + rest
    decreases 16 - nbits
  {
    var more := Repeated(nbits, L[nbits] - n);
    RepeatSplit(nbits, n, L[nbits]);
    if nbits == 16 {
      rest := more;
    } else {
      var after := HuffSizePrefix(L, nbits + 1, 0);
      rest := more + after;
      Concat(HuffSize(L, nbits - 1), Repeated(nbits, n), more, after);
    }
  }

  // A code that does not fit now makes the whole table too long.
  lemma {:induction false} TooLong(L: seq<Byte>, nbits: nat, n: nat)
    requires |L| == 17 && 1 <= nbits <= 16 && n < L[nbits]
    ensures var sizes := HuffSize(L, nbits - 1) + Repeated(nbits, n);
      Start(sizes, |sizes|) + Shl(1, 16 - nbits) <= Start(Sizes(L), |Sizes(L)|)
  {
    var sizes, all := HuffSize(L, nbits - 1) + Repeated(nbits, n), Sizes(L);
    var rest := HuffSizePrefix(L, nbits, n + 1);
    assert HuffSize(L, nbits - 1) + Repeated(nbits, n + 1) == sizes + [nbits];
    StartPrefix(sizes + [nbits], rest, |sizes| + 1);
    StartPrefix(sizes, [nbits], |sizes|);
    StartMono(all, |sizes| + 1, |all|);
  }

  // Reads one symbol and fills the entries of its code, unless the table would overflow.
  method LoadValue(bd: BitDecoder, huff: array<HuffCode>, code_pos: nat, nbits: nat, ghost sizes: seq<nat>, ghost values: seq<Byte>)
    returns (ok: bool, code: Byte)
    requires bd.Valid() && huff.Length == TABLE_SIZE && 1 <= nbits <= 16
    requires code_pos == Start(sizes, |sizes|) && Filled(huff[..], sizes, values)
    modifies bd, huff
    ensures bd.Valid() && bd.pos == old(bd.pos) + 8 && code == BitsAt(bd.Stream(), old(bd.pos), 8)
    ensures ok <==> code_pos + Shl(1, 16 - nbits) <= 0xffff
    ensures ok ==> Filled(huff[..], sizes + [nbits], values + [code])
    ensures ok ==> Start(sizes + [nbits], |sizes| + 1) == code_pos + Shl(1, 16 - nbits)
    ensures forall w :: code_pos + Shl(1, 16 - nbits) <= w < TABLE_SIZE ==> huff[w] == old(huff[w])
  {
    assert Pow2(8) == 256;
    code := bd.Consume(8);
    var ncodes := Shl(1, 16 - nbits);
    ok := code_pos + ncodes <= 0xffff;
    if ok {
      ghost var table := huff[..];
      FillCode(huff, code_pos, ncodes, HuffCode(nbits, code));
      FillKeeps(table, huff[..], sizes, values, nbits, code);
    }
  }

  // The next symbol of length nbits, of which there have been vi.
  method LoadNext(bd: BitDecoder, huff: array<HuffCode>, code_pos: nat, L: seq<Byte>, nbits: nat, vi: nat,
                  ghost sizes: seq<nat>, ghost values: seq<Byte>, ghost p: nat)
    returns (ok: bool, ghost values': seq<Byte>)
    requires bd.Valid() && huff.Length == TABLE_SIZE && |L| == 17 && 1 <= nbits <= 16 && vi < L[nbits]
    requires sizes == HuffSize(L, nbits - 1) + Repeated(nbits, vi) && code_pos == Start(sizes, |sizes|)
    requires Filled(huff[..], sizes, values) && bd.pos == p + 8 * |values| && BytesFrom(bd.Stream(), p, values)
    modifies bd, huff
    ensures bd.Valid() && bd.pos == p + 8 * |values'| && BytesFrom(bd.Stream(), p, values')
    ensures ok ==> Filled(huff[..], sizes + [nbits], values')
    ensures ok ==> Start(sizes + [nbits], |sizes| + 1) == code_pos + Shl(1, 16 - nbits) <= 0xffff
    ensures !ok ==> Start(Sizes(L), |Sizes(L)|) > 0xffff
    ensures forall w :: code_pos + Shl(1, 16 - nbits) <= w < TABLE_SIZE ==> huff[w] == old(huff[w])
  {
    var code;
    ok, code := LoadValue(bd, huff, code_pos, nbits, sizes, values);
    NextByte(bd.Stream(), p, values, code);
    values' := values + [code];
    if !ok {
      TooLong(L, nbits, vi);
    }
  }

  // All symbols of one length.
  method LoadLength(bd: BitDecoder, huff: array<HuffCode>, start: nat, L: seq<Byte>, nbits: nat, ghost values0: seq<Byte>, ghost p: nat)
    returns (ok: bool, code_pos: nat, ghost values: seq<Byte>)
    requires bd.Valid() && huff.Length == TABLE_SIZE && |L| == 17 && 1 <= nbits <= 16
    requires start == Start(HuffSize(L, nbits - 1), |HuffSize(L, nbits - 1)|) <= 0xffff
    requires Filled(huff[..], HuffSize(L, nbits - 1), values0)
    requires bd.pos == p + 8 * |values0| && BytesFrom(bd.Stream(), p, values0)
    modifies bd, huff
    ensures bd.Valid() && bd.pos == p + 8 * |values| && BytesFrom(bd.Stream(), p, values)
    ensures ok ==> Filled(huff[..], HuffSize(L, nbits), values)
    ensures ok ==> start <= code_pos == Start(HuffSize(L, nbits), |HuffSize(L, nbits)|) <= 0xffff
    ensures !ok ==> Start(Sizes(L), |Sizes(L)|) > 0xffff
    ensures ok ==> forall w :: code_pos <= w < TABLE_SIZE ==> huff[w] == old(huff[w])
  {
    code_pos, values, ok := start, values0, true;
    ghost var sizes := HuffSize(L, nbits - 1);
    for vi := 0 to L[nbits]
      invariant bd.Valid() && bd.pos == p + 8 * |values| && BytesFrom(bd.Stream(), p, values)
      invariant sizes == HuffSize(L, nbits - 1) + Repeated(nbits, vi) && Filled(huff[..], sizes, values)
      invariant ok && start <= code_pos == Start(sizes, |sizes|) <= 0xffff
      invariant forall w :: code_pos <= w < TABLE_SIZE ==> huff[w] == old(huff[w])
    {
      ok, values := LoadNext(bd, huff, code_pos, L, nbits, vi, sizes, values, p);
      if !ok {
        return;
      }
      code_pos := code_pos + Shl(1, 16 - nbits);
      sizes := sizes + [nbits];
    }
  }

  // Every entry is one of some symbol or as before.
  lemma {:induction false} StaysBounded(was: seq<HuffCode>, table: seq<HuffCode>, sizes: seq<nat>, values: seq<Byte>)
    requires Bounded(was) && |was| == TABLE_SIZE && Filled(table, sizes, values) && SizesOk(sizes)
    requires forall w :: Start(sizes, |sizes|) <= w < TABLE_SIZE ==> table[w] == was[w]
    ensures Bounded(table)
  {
    forall w | 0 <= w < TABLE_SIZE
      ensures table[w].nbits <= 16
    {
      if w < Start(sizes, |sizes|) {
        var k := SymbolOf(sizes, |sizes|, w);
        assert FilledAt(table, sizes, values, k);
      }
    }
  }

  lemma {:induction false} SymbolOf(sizes: seq<nat>, n: nat, w: nat) returns (k: nat)
    requires n <= |sizes| && w < Start(sizes, n)
    ensures k < n && Start(sizes, k) <= w < Start(sizes, k + 1)
  {
    if Start(sizes, n - 1) <= w {
      k := n - 1;
    } else {
      k := SymbolOf(sizes, n - 1, w);
    }
  }

  // The counts and symbols of one table stand at bit position p.
  ghost predicate Describes(bytes: seq<Byte>, p: nat, L: seq<Byte>, values: seq<Byte>) {
    && |L| == 17 && L[0] == 0 && BytesFrom(bytes, p, L[1..])
    && |values| == |Sizes(L)| && BytesFrom(bytes, p + 128, values)
  }

  // One table of a DHT segment. It is accepted exactly when its codes leave the last entry of the table free, and then
  // every window that begins with a code maps to that code's length and symbol.
  method ReadTable(bd: BitDecoder, huff: array<HuffCode>)
    returns (ok: bool, L: seq<Byte>, ghost values: seq<Byte>)
    requires bd.Valid() && huff.Length == TABLE_SIZE
    modifies bd, huff
    ensures bd.Valid() && |L| == 17 && L[0] == 0 && BytesFrom(bd.Stream(), old(bd.pos), L[1..])
    ensures bd.pos >= old(bd.pos) + 128
    ensures ok <==> Start(Sizes(L), |Sizes(L)|) <= 0xffff
    ensures ok ==> Describes(bd.Stream(), old(bd.pos), L, values) && TableAgrees(huff[..], Sizes(L), values)
    ensures ok ==> bd.pos == old(bd.pos) + 128 + 8 * |values|
    ensures ok ==> forall w :: Start(Sizes(L), |Sizes(L)|) <= w < TABLE_SIZE ==> huff[w] == old(huff[w])
    ensures ok && Bounded(old(huff[..])) ==> Bounded(huff[..])
  {
    ghost var p := bd.pos + 128;
    L := ReadCounts(bd);
    var code_pos := 0;
    values, ok := [], true;
    for nbits := 1 to 17
      invariant bd.Valid() && bd.pos == p + 8 * |values| && BytesFrom(bd.Stream(), p, values)
      invariant ok && Filled(huff[..], HuffSize(L, nbits - 1), values)
      invariant code_pos == Start(HuffSize(L, nbits - 1), |HuffSize(L, nbits - 1)|) <= 0xffff
      invariant forall w :: code_pos <= w < TABLE_SIZE ==> huff[w] == old(huff[w])
    {
      ok, code_pos, values := LoadLength(bd, huff, code_pos, L, nbits, values, p);
      if !ok {
        return;
      }
    }
    HuffSizeOk(L, 16);
    FilledAgrees(huff[..], Sizes(L), values);
    if Bounded(old(huff[..])) {
      StaysBounded(old(huff[..]), huff[..], Sizes(L), values);
    }
  }

  // A DHT segment names table 2 * Tc + Th, or no table the decoder has.
  function TableIndex(TcTh: Byte): (t: nat)
    ensures t < 4 || t == 4
  {
    if TcTh / 16 >= 2 || TcTh % 16 >= 2 then 4 else TcTh / 16 * 2 + TcTh % 16
  }

  // High digit the class, DC or AC, low digit the destination: slots 0 and 1 are the DC tables, 2 and 3 the AC tables.
  lemma SlotOf(Tc: nat, Th: nat)
    requires Tc < 16 && Th < 16
    ensures TableIndex(16 * Tc + Th) < 4 <==> Tc < 2 && Th < 2
    ensures TableIndex(0x00) == 0 && TableIndex(0x01) == 1 && TableIndex(0x10) == 2 && TableIndex(0x11) == 3
  {
    assert (16 * Tc + Th) / 16 == Tc && (16 * Tc + Th) % 16 == Th;
  }

  // The four tables of the decoder.
  ghost predicate FourTables(tables: seq<array<HuffCode>>) {
    && |tables| == 4 && (forall i :: 0 <= i < 4 ==> tables[i].Length == TABLE_SIZE)
    && forall i, j :: 0 <= i < j < 4 ==> tables[i] != tables[j]
  }

  ghost function Contents(tables: seq<array<HuffCode>>): (c: seq<seq<HuffCode>>)
    reads set i | 0 <= i < |tables| :: tables[i]
    ensures |c| == |tables| && forall i :: 0 <= i < |tables| ==> c[i] == tables[i][..]
  {
    seq(|tables|, i requires 0 <= i < |tables| reads set j | 0 <= j < |tables| :: tables[j] => tables[i][..])
  }

  ghost predicate AllBounded(contents: seq<seq<HuffCode>>) {
    forall i :: 0 <= i < |contents| ==> Bounded(contents[i])
  }

  ghost predicate TablesOk(tables: seq<array<HuffCode>>)
    reads set i | 0 <= i < |tables| :: tables[i]
  {
    FourTables(tables) && AllBounded(Contents(tables))
  }

  // Past the end of the stream there are only ones, which name no table.
  lemma {:induction false} OnesNameNoTable(bytes: seq<Byte>, p: nat)
    requires p >= 8 * |bytes|
    ensures BitsAt(bytes, p, 8) == 255
  {
    OnesAfterEnd(bytes, p, 8);
    assert Pow2(8) == 256;
  }

  lemma {:induction false} OnesAfterEnd(bytes: seq<Byte>, p: nat, n: nat)
    requires p >= 8 * |bytes|
    ensures BitsAt(bytes, p, n) == Pow2(n) - 1
  {
    if n > 0 {
      OnesAfterEnd(bytes, p, n - 1);
      OneAfterEnd(bytes, p + n - 1);
    }
  }

  lemma {:induction false} OneAfterEnd(bytes: seq<Byte>, k: nat)
    requires k >= 8 * |bytes|
    ensures BitAt(bytes, k) == 1
  {
    AllOnes(7 - k % 8);
  }

  lemma {:induction false} AllOnes(low: nat)
    requires low <= 8
    ensures Shr(0xff, low) == Pow2(8 - low) - 1
  {
    if low == 0 {
      assert Pow2(8) == 256;
    } else {
      AllOnes(low - 1);
    }
  }

  // ---- A segment ----

  // The counter at its beginning, which counts itself.
  const COUNTER_BITS: nat := 16

  ghost function LengthAt(bytes: seq<Byte>, p: nat): nat {
    (BitsAt(bytes, p, COUNTER_BITS) as int - 2) % 65536
  }

  function OctetsAt(bytes: seq<Byte>, p: nat, n: nat): (s: seq<Byte>)
    ensures |s| == n && BytesFrom(bytes, p, s)
  {
    if n == 0 then []
    else
      assert Pow2(8) == 256;
      BitsBound(bytes, p + 8 * (n - 1), 8);
      OctetsAt(bytes, p, n - 1) + [BitsAt(bytes, p + 8 * (n - 1), 8)]
  }

  lemma {:induction false} OctetsUnique(bytes: seq<Byte>, p: nat, s: seq<Byte>)
    requires BytesFrom(bytes, p, s)
    ensures s == OctetsAt(bytes, p, |s|)
  {
    var t := OctetsAt(bytes, p, |s|);
    forall k | 0 <= k < |s|
      ensures s[k] == t[k]
    {
    }
  }

  // A table of a segment: the slot its header names, the counts and the symbols.
  datatype Description = Description(slot: nat, L: seq<Byte>, values: seq<Byte>)

  // What the bits at p describe, the header being one of theirs.
  function DescriptionAt(bytes: seq<Byte>, p: nat): (d: Description)
    ensures Describes(bytes, p + 8, d.L, d.values)
  {
    var L := [0] + OctetsAt(bytes, p + 8, MAX_LENGTH);
    assert L[1..] == OctetsAt(bytes, p + 8, MAX_LENGTH);
    Description(TableIndex(OctetsAt(bytes, p, 1)[0]), L, OctetsAt(bytes, p + 8 + 128, |Sizes(L)|))
  }

  lemma {:induction false} CountsUnique(bytes: seq<Byte>, p: nat, L: seq<Byte>)
    requires |L| == 17 && L[0] == 0 && BytesFrom(bytes, p + 8, L[1..])
    ensures DescriptionAt(bytes, p).L == L
  {
    OctetsUnique(bytes, p + 8, L[1..]);
    assert L == [0] + L[1..];
  }

  lemma {:induction false} DescriptionUnique(bytes: seq<Byte>, p: nat, L: seq<Byte>, values: seq<Byte>)
    requires Describes(bytes, p + 8, L, values)
    ensures DescriptionAt(bytes, p).L == L && DescriptionAt(bytes, p).values == values
  {
    CountsUnique(bytes, p, L);
    OctetsUnique(bytes, p + 8 + 128, values);
  }

  // The header names a table, and the codes leave the last entry of it free.
  predicate Acceptable(d: Description)
    requires |d.L| == 17
  {
    d.slot < 4 && Start(Sizes(d.L), |Sizes(d.L)|) <= 0xffff
  }

  datatype Segment = Malformed | Segment(tables: seq<Description>, end: nat)

  function Before(ds: seq<Description>, s: Segment): Segment {
    match s
    case Malformed => Malformed
    case Segment(tables, end) => Segment(ds + tables, end)
  }

  // The tables from p on, until the length counter, sixteen bits that wrap around, is zero.
  function Parse(bytes: seq<Byte>, p: nat, length: nat): Segment
    decreases 8 * |bytes| - p
  {
    var d := DescriptionAt(bytes, p);
    if length == 0 then Segment([], p)
    else if !Acceptable(d) then Malformed
    else
      NamedIsInside(bytes, p);
      Before([d], Parse(bytes, p + 8 + 128 + 8 * |d.values|, (length - 17 - |d.values|) % 65536))
  }

  // The length counter and the tables.
  ghost function SegmentAt(bytes: seq<Byte>, p: nat): Segment {
    Parse(bytes, p + COUNTER_BITS, LengthAt(bytes, p))
  }

  // Past the end of the stream there are only ones, which name no table.
  lemma {:induction false} NamedIsInside(bytes: seq<Byte>, p: nat)
    requires DescriptionAt(bytes, p).slot < 4
    ensures p < 8 * |bytes|
  {
    if p >= 8 * |bytes| {
      assert OctetsAt(bytes, p, 1)[0] == OctetAt(bytes, p, 0);
      OnesNameNoTable(bytes, p);
    }
  }

  // The last of the descriptions for a slot.
  function LastFor(ds: seq<Description>, slot: nat): Option<Description> {
    if ds == [] then None
    else if ds[|ds| - 1].slot == slot then Some(ds[|ds| - 1])
    else LastFor(ds[..|ds| - 1], slot)
  }

  // A slot holds the last table described for it, or what it held before.
  ghost predicate SlotHolds(table: seq<HuffCode>, was: seq<HuffCode>, ds: seq<Description>, slot: nat) {
    match LastFor(ds, slot)
    case None => table == was
    case Some(d) => |d.L| == 17 && TableAgrees(table, Sizes(d.L), d.values)
  }

  ghost predicate Holds(tables: seq<seq<HuffCode>>, was: seq<seq<HuffCode>>, ds: seq<Description>) {
    |tables| == |was| == 4 && forall i :: 0 <= i < 4 ==> SlotHolds(tables[i], was[i], ds, i)
  }

  ghost predicate Marks(present: seq<bool>, was: seq<bool>, ds: seq<Description>) {
    |present| == |was| == 4 && forall i :: 0 <= i < 4 ==> (present[i] <==> was[i] || LastFor(ds, i).Some?)
  }

  lemma {:induction false} OneMoreTable(tables: seq<seq<HuffCode>>, tables': seq<seq<HuffCode>>, was: seq<seq<HuffCode>>, ds: seq<Description>, d: Description)
    requires Holds(tables, was, ds) && |tables'| == 4 && d.slot < 4 && |d.L| == 17
    requires TableAgrees(tables'[d.slot], Sizes(d.L), d.values)
    requires forall i :: 0 <= i < 4 && i != d.slot ==> tables'[i] == tables[i]
    ensures Holds(tables', was, ds + [d])
  {
    assert (ds + [d])[..|ds|] == ds;
    forall i | 0 <= i < 4
      ensures SlotHolds(tables'[i], was[i], ds + [d], i)
    {
      assert SlotHolds(tables[i], was[i], ds, i);
    }
  }

  lemma {:induction false} OneMoreMark(present: seq<bool>, was: seq<bool>, ds: seq<Description>, d: Description)
    requires Marks(present, was, ds) && d.slot < 4
    ensures Marks(present[d.slot := true], was, ds + [d])
  {
    assert (ds + [d])[..|ds|] == ds;
  }

  // One table of the segment, behind its header.
  method ReadNamed(bd: BitDecoder, tables: seq<array<HuffCode>>, htidx: nat)
    returns (ok: bool, length: nat, ghost L: seq<Byte>, ghost values: seq<Byte>)
    requires bd.Valid() && TablesOk(tables) && htidx < 4
    modifies bd, tables[htidx]
    ensures bd.Valid() && |L| == 17 && L[0] == 0 && BytesFrom(bd.Stream(), old(bd.pos), L[1..])
    ensures ok <==> Start(Sizes(L), |Sizes(L)|) <= 0xffff
    ensures ok ==> Describes(bd.Stream(), old(bd.pos), L, values) && TableAgrees(tables[htidx][..], Sizes(L), values)
    ensures ok ==> length == 17 + |values| && bd.pos == old(bd.pos) + 128 + 8 * |values|
    ensures ok ==> Bounded(tables[htidx][..])
  {
    assert Contents(tables)[htidx] == tables[htidx][..];
    var counts;
    ok, counts, values := ReadTable(bd, tables[htidx]);
    L, length := counts, 17 + |Sizes(counts)|;
  }

  lemma {:induction false} IsDescription(bytes: seq<Byte>, p: nat, ok: bool, L: seq<Byte>, values: seq<Byte>)
    requires |L| == 17 && L[0] == 0 && BytesFrom(bytes, p + 8, L[1..]) && (ok ==> Describes(bytes, p + 8, L, values))
    ensures DescriptionAt(bytes, p).L == L && (ok ==> DescriptionAt(bytes, p).values == values)
  {
    CountsUnique(bytes, p, L);
    if ok {
      DescriptionUnique(bytes, p, L, values);
    }
  }

  // What a round of the loop over the tables has to show: ds are the tables so far.
  ghost predicate Progress(contents: seq<seq<HuffCode>>, was: seq<seq<HuffCode>>, present: seq<bool>, wasPresent: seq<bool>,
                           ds: seq<Description>)
  {
    AllBounded(contents) && Holds(contents, was, ds) && Marks(present, wasPresent, ds)
  }

  lemma {:induction false} RoundDone(contents: seq<seq<HuffCode>>, contents': seq<seq<HuffCode>>, was: seq<seq<HuffCode>>, present: seq<bool>,
                  wasPresent: seq<bool>, ds: seq<Description>, d: Description)
    requires Progress(contents, was, present, wasPresent, ds) && d.slot < 4 && |d.L| == 17 && |contents'| == 4
    requires Bounded(contents'[d.slot]) && TableAgrees(contents'[d.slot], Sizes(d.L), d.values)
    requires forall i :: 0 <= i < 4 && i != d.slot ==> contents'[i] == contents[i]
    ensures Progress(contents', was, present[d.slot := true], wasPresent, ds + [d])
  {
    OneMoreTable(contents, contents', was, ds, d);
    OneMoreMark(present, wasPresent, ds, d);
  }

  lemma {:induction false} ParseNext(bytes: seq<Byte>, p: nat, length: nat, ds: seq<Description>, p': nat, length': nat)
    requires 0 < length && Acceptable(DescriptionAt(bytes, p))
    requires var d := DescriptionAt(bytes, p); p' == p + 8 + 128 + 8 * |d.values| && length' == (length - 17 - |d.values|) % 65536
    ensures Before(ds, Parse(bytes, p, length)) == Before(ds + [DescriptionAt(bytes, p)], Parse(bytes, p', length'))
    ensures p < 8 * |bytes|
  {
    NamedIsInside(bytes, p);
    BeforeJoins(ds, DescriptionAt(bytes, p), Parse(bytes, p', length'));
  }

  lemma {:induction false} ParseFails(bytes: seq<Byte>, p: nat, length: nat, ds: seq<Description>)
    requires 0 < length && !Acceptable(DescriptionAt(bytes, p))
    ensures Before(ds, Parse(bytes, p, length)) == Malformed
  {
  }

  // The header byte.
  method ReadHeader(bd: BitDecoder) returns (htidx: nat)
    requires bd.Valid()
    modifies bd
    ensures bd.Valid() && bd.pos == old(bd.pos) + 8 && htidx == DescriptionAt(bd.Stream(), old(bd.pos)).slot <= 4
  {
    assert Pow2(8) == 256;
    ghost var p := bd.pos;
    var TcTh := bd.Consume(8);
    assert TcTh == OctetAt(bd.Stream(), p, 0) == OctetsAt(bd.Stream(), p, 1)[0];
    htidx := TableIndex(TcTh);
  }

  // One round of the loop over the tables of a segment.
  method NextTable(bd: BitDecoder, tables: seq<array<HuffCode>>, present: seq<bool>, length: nat,
                   ghost ds: seq<Description>, ghost was: seq<seq<HuffCode>>, ghost wasPresent: seq<bool>)
    returns (ok: bool, length': nat, present': seq<bool>, ghost ds': seq<Description>)
    requires bd.Valid() && FourTables(tables) && 0 < length
    requires Progress(Contents(tables), was, present, wasPresent, ds)
    modifies bd, set i | 0 <= i < |tables| :: tables[i]
    ensures bd.Valid()
    ensures !ok ==> Before(ds, Parse(bd.Stream(), old(bd.pos), length)) == Malformed
    ensures ok ==> Before(ds, Parse(bd.Stream(), old(bd.pos), length)) == Before(ds', Parse(bd.Stream(), bd.pos, length'))
    ensures ok ==> old(bd.pos) < bd.pos && old(bd.pos) < 8 * |bd.Stream()|
    ensures ok ==> Progress(Contents(tables), was, present', wasPresent, ds')
  {
    ghost var bytes, p, before := bd.Stream(), bd.pos, Contents(tables);
    ok, length', present', ds' := false, length, present, ds;
    var htidx := ReadHeader(bd);
    if htidx == 4 {
      ParseFails(bytes, p, length, ds);
      return;
    }
    var used;
    ghost var L, values;
    ok, used, L, values := ReadNamed(bd, tables, htidx);
    IsDescription(bytes, p, ok, L, values);
    ghost var d := DescriptionAt(bytes, p);
    if ok {
      length' := (length as int - used) % 65536;
      present' := present[htidx := true];
      ds' := ds + [d];
      ParseNext(bytes, p, length, ds, bd.pos, length');
      RoundDone(before, Contents(tables), was, present, wasPresent, ds, d);
    } else {
      ParseFails(bytes, p, length, ds);
    }
  }

  // The loop over the tables.
  method ReadTables(bd: BitDecoder, tables: seq<array<HuffCode>>, present: seq<bool>, length0: nat)
    returns (ok: bool, present': seq<bool>, ghost ds: seq<Description>)
    requires bd.Valid() && TablesOk(tables) && |present| == 4
    modifies bd, set i | 0 <= i < |tables| :: tables[i]
    ensures bd.Valid()
    ensures Parse(bd.Stream(), old(bd.pos), length0) == if ok then Segment(ds, bd.pos) else Malformed
    ensures ok ==> Progress(Contents(tables), old(Contents(tables)), present', present, ds)
  {
    ghost var segment, was := Parse(bd.Stream(), bd.pos, length0), Contents(tables);
    ds, ok, present' := [], true, present;
    var length := length0;
    BeforeNothing(segment);
    NothingRead(was, present);
    while length > 0
      invariant ok && bd.Valid() && Progress(Contents(tables), was, present', present, ds)
      invariant segment == Before(ds, Parse(bd.Stream(), bd.pos, length))
      decreases 8 * |bd.Stream()| - bd.pos
    {
      ok, length, present', ds := NextTable(bd, tables, present', length, ds, was, present);
      if !ok {
        return;
      }
    }
    ParseEnds(bd.Stream(), bd.pos, ds);
  }

  method ReadCounter(bd: BitDecoder) returns (length: nat)
    requires bd.Valid()
    modifies bd
    ensures bd.Valid() && bd.pos == old(bd.pos) + COUNTER_BITS && length == LengthAt(bd.Stream(), old(bd.pos))
  {
    length := bd.Consume(COUNTER_BITS);
    length := (length as int - 2) % 65536;
  }

  /** The DHT segment: tables until its length is used up. It is accepted exactly when all of them are acceptable; then ds
    are the tables, the decoder is behind them, every slot holds the last table described for it and no other slot has
    changed. */
  method ReadSegment(bd: BitDecoder, tables: seq<array<HuffCode>>, present: seq<bool>)
    returns (ok: bool, present': seq<bool>, ghost ds: seq<Description>)
    requires bd.Valid() && TablesOk(tables) && |present| == 4
    modifies bd, set i | 0 <= i < |tables| :: tables[i]
    ensures bd.Valid()
    ensures SegmentAt(bd.Stream(), old(bd.pos)) == if ok then Segment(ds, bd.pos) else Malformed
    ensures ok ==> TablesOk(tables) && Holds(Contents(tables), old(Contents(tables)), ds) && Marks(present', present, ds)
  {
    var length := ReadCounter(bd);
    ok, present', ds := ReadTables(bd, tables, present, length);
  }

  lemma NothingRead(contents: seq<seq<HuffCode>>, present: seq<bool>)
    requires |contents| == |present| == 4 && AllBounded(contents)
    ensures Progress(contents, contents, present, present, [])
  {
    forall i | 0 <= i < 4
      ensures SlotHolds(contents[i], contents[i], [], i)
    {
    }
  }

  lemma {:induction false} BeforeNothing(s: Segment)
    ensures Before([], s) == s
  {
    if s.Segment? {
      assert [] + s.tables == s.tables;
    }
  }

  lemma {:induction false} ParseEnds(bytes: seq<Byte>, p: nat, ds: seq<Description>)
    ensures Before(ds, Parse(bytes, p, 0)) == Segment(ds, p)
  {
    assert ds + [] == ds;
  }

  lemma {:induction false} BeforeJoins(ds: seq<Description>, d: Description, s: Segment)
    ensures Before(ds, Before([d], s)) == Before(ds + [d], s)
  {
    if s.Segment? {
      assert ds + ([d] + s.tables) == ds + [d] + s.tables;
    }
  }
}
