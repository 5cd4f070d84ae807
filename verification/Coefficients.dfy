/** The 63 AC coefficients of a block in common/pjpeg.c: run lengths and values, against the encoder of section F.1.2.2
  of ITU-T T.81. */
module Coefficients {
  import opened Powers
  import opened Wrappers
  import opened BitReader
  import opened Huffman
  import opened SymbolDecoding

  // ZZ: where the coefficient with this number in zigzag order stands in the block.
  function Zigzag(k: nat): nat
    requires k < 64
  {
    if k < 8 then [0, 1, 8, 16, 9, 2, 3, 10][k]
    else if k < 16 then [17, 24, 32, 25, 18, 11, 4, 5][k - 8]
    else if k < 24 then [12, 19, 26, 33, 40, 48, 41, 34][k - 16]
    else if k < 32 then [27, 20, 13, 6, 7, 14, 21, 28][k - 24]
    else if k < 40 then [35, 42, 49, 56, 57, 50, 43, 36][k - 32]
    else if k < 48 then [29, 22, 15, 23, 30, 37, 44, 51][k - 40]
    else if k < 56 then [58, 59, 52, 45, 38, 31, 39, 46][k - 48]
    else [53, 60, 61, 54, 47, 55, 62, 63][k - 56]
  }

  // The number in zigzag order of a place in the block.
  function FromZigzag(k: nat): nat
    requires k < 64
  {
    if k < 8 then [0, 1, 5, 6, 14, 15, 27, 28][k]
    else if k < 16 then [2, 4, 7, 13, 16, 26, 29, 42][k - 8]
    else if k < 24 then [3, 8, 12, 17, 25, 30, 41, 43][k - 16]
    else if k < 32 then [9, 11, 18, 24, 31, 40, 44, 53][k - 24]
    else if k < 40 then [10, 19, 23, 32, 39, 45, 52, 54][k - 32]
    else if k < 48 then [20, 22, 33, 38, 46, 51, 55, 60][k - 40]
    else if k < 56 then [21, 34, 37, 47, 50, 56, 59, 61][k - 48]
    else [35, 36, 48, 49, 57, 58, 62, 63][k - 56]
  }

  lemma ZigzagIsPermutation(k: nat)
    requires k < 64
    ensures Zigzag(k) < 64 && FromZigzag(Zigzag(k)) == k
  {
    if k < 32 {
      ZigzagFirstHalf(k);
    } else {
      ZigzagSecondHalf(k);
    }
  }

  lemma ZigzagFirstHalf(k: nat)
    requires k < 32
    ensures Zigzag(k) < 64 && FromZigzag(Zigzag(k)) == k
  {
    match k {
      case 0 => case 1 => case 2 => case 3 => case 4 => case 5 => case 6 => case 7 =>
      case 8 => case 9 => case 10 => case 11 => case 12 => case 13 => case 14 => case 15 =>
      case 16 => case 17 => case 18 => case 19 => case 20 => case 21 => case 22 => case 23 =>
      case 24 => case 25 => case 26 => case 27 => case 28 => case 29 => case 30 => case 31 =>
    }
  }

  lemma ZigzagSecondHalf(k: nat)
    requires 32 <= k < 64
    ensures Zigzag(k) < 64 && FromZigzag(Zigzag(k)) == k
  {
    match k {
      case 32 => case 33 => case 34 => case 35 => case 36 => case 37 => case 38 => case 39 =>
      case 40 => case 41 => case 42 => case 43 => case 44 => case 45 => case 46 => case 47 =>
      case 48 => case 49 => case 50 => case 51 => case 52 => case 53 => case 54 => case 55 =>
      case 56 => case 57 => case 58 => case 59 => case 60 => case 61 => case 62 => case 63 =>
    }
  }

  // The walk of figure A.6: along the diagonals of the block, up to the right on the even ones, down to the left on the
  // odd ones, and one place along the border from one diagonal to the next.
  lemma ZigzagWalks(k: nat)
    requires k < 63
    ensures Zigzag(0) == 0
    ensures var row, col := Zigzag(k) / 8, Zigzag(k) % 8;
      Zigzag(k + 1) ==
        if (row + col) % 2 == 0 then
          if col == 7 then 8 * (row + 1) + col else if row == 0 then 8 * row + col + 1 else 8 * (row - 1) + col + 1
        else
          if row == 7 then 8 * row + col + 1 else if col == 0 then 8 * (row + 1) + col else 8 * (row + 1) + col - 1
  {
    if k < 32 {
      ZigzagWalksUp(k);
    } else {
      ZigzagWalksOn(k);
    }
  }

  lemma ZigzagWalksUp(k: nat)
    requires k < 32
    ensures var row, col := Zigzag(k) / 8, Zigzag(k) % 8;
      Zigzag(k + 1) ==
        if (row + col) % 2 == 0 then
          if col == 7 then 8 * (row + 1) + col else if row == 0 then 8 * row + col + 1 else 8 * (row - 1) + col + 1
        else
          if row == 7 then 8 * row + col + 1 else if col == 0 then 8 * (row + 1) + col else 8 * (row + 1) + col - 1
  {
    match k {
      case 0 => case 1 => case 2 => case 3 => case 4 => case 5 => case 6 => case 7 =>
      case 8 => case 9 => case 10 => case 11 => case 12 => case 13 => case 14 => case 15 =>
      case 16 => case 17 => case 18 => case 19 => case 20 => case 21 => case 22 => case 23 =>
      case 24 => case 25 => case 26 => case 27 => case 28 => case 29 => case 30 => case 31 =>
    }
  }

  lemma ZigzagWalksOn(k: nat)
    requires 32 <= k < 63
    ensures var row, col := Zigzag(k) / 8, Zigzag(k) % 8;
      Zigzag(k + 1) ==
        if (row + col) % 2 == 0 then
          if col == 7 then 8 * (row + 1) + col else if row == 0 then 8 * row + col + 1 else 8 * (row - 1) + col + 1
        else
          if row == 7 then 8 * row + col + 1 else if col == 0 then 8 * (row + 1) + col else 8 * (row + 1) + col - 1
  {
    match k {
      case 32 => case 33 => case 34 => case 35 => case 36 => case 37 => case 38 => case 39 =>
      case 40 => case 41 => case 42 => case 43 => case 44 => case 45 => case 46 => case 47 =>
      case 48 => case 49 => case 50 => case 51 => case 52 => case 53 => case 54 => case 55 =>
      case 56 => case 57 => case 58 => case 59 => case 60 => case 61 => case 62 =>
    }
  }

  // ---- The encoder ----

  type Zigzagged = zz: seq<int> | |zz| == 64 witness Repeated(0, 64)

  // The magnitude category of a value: table F.1.
  function Category(value: int): nat {
    BitLength(if value < 0 then -value else value)
  }

  function BitLength(n: nat): nat {
    if n == 0 then 0 else 1 + BitLength(n / 2)
  }

  lemma {:induction false} BitLengthBounds(n: nat)
    ensures n < Pow2(BitLength(n)) && (n > 0 ==> BitLength(n) > 0 && Pow2(BitLength(n) - 1) <= n)
  {
    if n > 0 {
      BitLengthBounds(n / 2);
    }
  }

  lemma CategoryIs(value: int)
    ensures HasCategory(value, Category(value))
  {
    BitLengthBounds(if value < 0 then -value else value);
  }

  // The bit length is the only category of the value.
  lemma CategoryIff(value: int, ssss: nat)
    ensures HasCategory(value, ssss) <==> ssss == Category(value)
  {
    CategoryIs(value);
    if HasCategory(value, ssss) {
      CategoryUnique(value, ssss, Category(value));
    }
  }

  // Zero coefficients from number c on.
  function Run(zz: Zigzagged, c: nat): (r: nat)
    requires c <= 64
    ensures c + r <= 64 && (forall k :: c <= k < c + r ==> zz[k] == 0) && (c + r < 64 ==> zz[c + r] != 0)
    decreases 64 - c
  {
    if c == 64 || zz[c] != 0 then 0 else 1 + Run(zz, c + 1)
  }

  // A symbol and the position after its code.
  datatype Sym = Sym(symbol: Byte, after: nat)

  // What DECODE finds at each bit position.
  type Symbols = nat -> Option<Sym>

  ghost function SymbolsOf(L: seq<Byte>, values: seq<Byte>, bytes: seq<Byte>): Symbols
    requires |L| == 17 && |values| == |Sizes(L)|
  {
    (p: nat) => SymbolAt(NextSymbol(L, bytes, p), Sizes(L), values, p)
  }

  ghost function SymbolAt(next: Option<int>, sizes: seq<nat>, values: seq<Byte>, p: nat): Option<Sym> {
    if next.Some? && 0 <= next.value < |sizes| == |values| then Some(Sym(values[next.value], p + sizes[next.value])) else None
  }

  const EOB: Byte := 0x00
  const ZRL: Byte := 0xf0

  ghost predicate Has(s: Symbols, p: nat, symbol: nat) {
    s(p).Some? && s(p).value.symbol == symbol
  }

  // Whether the stream at p holds the coefficients from number c on the way the encoder writes them, and where they
  // end: a run of 16 zeros is ZRL, trailing zeros are EOB, anything else is a run, a category and additional bits.
  ghost function EndOf(s: Symbols, bytes: seq<Byte>, zz: Zigzagged, p: nat, c: nat): Option<nat>
    requires c <= 64
    decreases 64 - c
  {
    if c == 64 then Some(p)
    else
      var r := Run(zz, c);
      if c + r == 64 then (if Has(s, p, EOB) then Some(s(p).value.after) else None)
      else if r >= 16 then (if Has(s, p, ZRL) then EndOf(s, bytes, zz, s(p).value.after, c + 16) else None)
      else
        var v, ssss := zz[c + r], Category(zz[c + r]);
        CategoryIs(v);
        if ssss < 16 && Has(s, p, 16 * r + ssss) && BitsAt(bytes, s(p).value.after, ssss) == AdditionalBits(v, ssss)
        then EndOf(s, bytes, zz, s(p).value.after + ssss, c + r + 1)
        else None
  }

  // ---- The decoder ----

  // Coefficients 1 .. c - 1 are in place, dequantised, and the others still zero; the DC coefficient is dc.
  ghost predicate InPlace(block: seq<int>, zz: Zigzagged, qtab: seq<int>, c: nat, dc: int) {
    && |block| == |qtab| == 64 && c <= 64 && block[0] == dc
    && forall k :: 1 <= k < 64 ==> PlaceOk(block, zz, qtab, c, k)
  }

  ghost predicate PlaceOk(block: seq<int>, zz: Zigzagged, qtab: seq<int>, c: nat, k: nat)
    requires |block| == |qtab| == 64 && k < 64
  {
    ZigzagIsPermutation(k);
    block[Zigzag(k)] == if k < c then zz[k] * qtab[k] else 0
  }

  // A run of zeros and the value after it.
  lemma Place(block: seq<int>, zz: Zigzagged, qtab: seq<int>, c: nat, at: nat, dc: int, v: int, next: nat)
    requires InPlace(block, zz, qtab, c, dc) && 1 <= c <= at < 64 && next == at + 1
    requires (forall k :: c <= k < at ==> zz[k] == 0) && v == zz[at]
    ensures Zigzag(at) < 64 && InPlace(block[Zigzag(at) := v * qtab[at]], zz, qtab, next, dc)
  {
    ZigzagIsPermutation(at);
    ZigzagIsPermutation(0);
    var block' := block[Zigzag(at) := v * qtab[at]];
    forall k | 1 <= k < 64
      ensures PlaceOk(block', zz, qtab, next, k)
    {
      ZigzagIsPermutation(k);
      assert PlaceOk(block, zz, qtab, c, k);
    }
  }

  // Only zeros are left.
  lemma RestZero(block: seq<int>, zz: Zigzagged, qtab: seq<int>, c: nat, dc: int)
    requires InPlace(block, zz, qtab, c, dc) && forall k :: c <= k < 64 ==> zz[k] == 0
    ensures InPlace(block, zz, qtab, 64, dc)
  {
    forall k | 1 <= k < 64
      ensures PlaceOk(block, zz, qtab, 64, k)
    {
      assert PlaceOk(block, zz, qtab, c, k);
    }
  }

  // What one symbol says about coefficients that the stream holds: nothing is left, ...
  lemma ReadEnd(s: Symbols, bytes: seq<Byte>, zz: Zigzagged, p: nat, c: nat)
    requires c < 64 && EndOf(s, bytes, zz, p, c).Some? && c + Run(zz, c) == 64
    ensures s(p).Some? && s(p).value.symbol == 0x00 && EndOf(s, bytes, zz, p, c) == Some(s(p).value.after)
  {
  }

  // ... or sixteen zeros, read as fifteen and a value of no bits, ...
  lemma ReadZeros(s: Symbols, bytes: seq<Byte>, zz: Zigzagged, p: nat, c: nat)
    requires c < 64 && EndOf(s, bytes, zz, p, c).Some? && c + Run(zz, c) < 64 && Run(zz, c) >= 16
    ensures s(p).Some? && s(p).value.symbol == 0xf0 && Received(bytes, s(p).value.after, 0) == 0
    ensures EndOf(s, bytes, zz, s(p).value.after, c + 16) == EndOf(s, bytes, zz, p, c)
  {
    assert Pow2(0) == 1;
  }

  // ... or a shorter run and a value.
  lemma ReadValue(s: Symbols, bytes: seq<Byte>, zz: Zigzagged, p: nat, c: nat, r: nat, v: int, ssss: nat)
    requires c < 64 && EndOf(s, bytes, zz, p, c).Some? && r == Run(zz, c) < 16 && c + r < 64
    requires v == zz[c + r] && ssss == Category(v)
    ensures s(p).Some? && 0 < ssss < 16 && s(p).value.symbol == 16 * r + ssss
    ensures Received(bytes, s(p).value.after, ssss) == v
    ensures EndOf(s, bytes, zz, s(p).value.after + ssss, c + r + 1) == EndOf(s, bytes, zz, p, c)
  {
    CategoryIs(v);
    assert Has(s, p, 16 * r + ssss);
    ReceiveUndoes(bytes, s(p).value.after, v, ssss);
  }

  ghost predicate ZeroFrom(zz: Zigzagged, c: nat, to: nat)
    requires to <= 64
  {
    forall k :: c <= k < to ==> zz[k] == 0
  }

  // The symbol, and the value after it, are what the encoder wrote for the next coefficients.
  ghost predicate RunRead(s: Symbols, bytes: seq<Byte>, zz: Zigzagged, c: nat, code: Byte, mid: nat, end: nat)
    requires c < 64
  {
    var at, ssss := c + code / 16, code % 16;
    if code == EOB then mid == end && ZeroFrom(zz, c, 64) else (
      at < 64 && ZeroFrom(zz, c, at) && Received(bytes, mid, ssss) == zz[at]
      && EndOf(s, bytes, zz, mid + ssss, at + 1) == Some(end))
  }

  lemma NextRun(s: Symbols, bytes: seq<Byte>, zz: Zigzagged, p: nat, c: nat, end: nat)
    requires c < 64 && EndOf(s, bytes, zz, p, c) == Some(end)
    ensures s(p).Some? && RunRead(s, bytes, zz, c, s(p).value.symbol, s(p).value.after, end)
  {
    var r := Run(zz, c);
    if c + r == 64 {
      ReadEnd(s, bytes, zz, p, c);
    } else if r >= 16 {
      ReadZeros(s, bytes, zz, p, c);
    } else {
      ShortRun(s, bytes, zz, p, c, end);
    }
  }

  lemma ShortRun(s: Symbols, bytes: seq<Byte>, zz: Zigzagged, p: nat, c: nat, end: nat)
    requires c < 64 && EndOf(s, bytes, zz, p, c) == Some(end) && Run(zz, c) < 16 && c + Run(zz, c) < 64
    ensures s(p).Some? && RunRead(s, bytes, zz, c, s(p).value.symbol, s(p).value.after, end)
  {
    var r := Run(zz, c);
    var ssss, at := Category(zz[c + r]), c + r;
    ReadValue(s, bytes, zz, p, c, r, zz[at], ssss);
    Digits(s(p).value.symbol, r, ssss);
    IsRun(s, bytes, zz, c, s(p).value.symbol, s(p).value.after, end, r, ssss);
  }

  lemma IsRun(s: Symbols, bytes: seq<Byte>, zz: Zigzagged, c: nat, code: Byte, mid: nat, end: nat, r: nat, ssss: nat)
    requires c < 64 && r == Run(zz, c) && c + r < 64 && code != EOB && code / 16 == r && code % 16 == ssss
    requires Received(bytes, mid, ssss) == zz[c + r] && EndOf(s, bytes, zz, mid + ssss, c + r + 1) == Some(end)
    ensures RunRead(s, bytes, zz, c, code, mid, end)
  {
  }

  lemma Digits(code: nat, r: nat, ssss: nat)
    requires code == 16 * r + ssss && 0 < ssss < 16
    ensures code != 0 && code / 16 == r && code % 16 == ssss
  {
  }

  // The coefficients before number c are in place, and the stream at p holds the others up to position end.
  ghost predicate Decoded(s: Symbols, bytes: seq<Byte>, zz: Zigzagged, qtab: seq<int>, dc: int, block: seq<int>, p: nat, c: nat, end: nat) {
    c <= 64 && EndOf(s, bytes, zz, p, c) == Some(end) && InPlace(block, zz, qtab, c, dc)
  }

  lemma NowDecoded(s: Symbols, bytes: seq<Byte>, zz: Zigzagged, qtab: seq<int>, dc: int, block: seq<int>, c: nat, code: Byte,
                   mid: nat, end: nat, p: nat, next: nat)
    requires c < 64 && code != EOB && RunRead(s, bytes, zz, c, code, mid, end)
    requires p == mid + code % 16 && next == c + code / 16 + 1 && InPlace(block, zz, qtab, next, dc)
    ensures Decoded(s, bytes, zz, qtab, dc, block, p, next, end)
  {
  }

  // The tables in use, and the symbols they give.
  ghost predicate Codes(s: Symbols, table: seq<HuffCode>, bytes: seq<Byte>) {
    exists L, values :: |L| == 17 && |values| == |Sizes(L)| && s == SymbolsOf(L, values, bytes)
      && TableAgrees(table, Sizes(L), values)
  }

  method NextCode(bd: BitDecoder, huff: array<HuffCode>, ghost s: Symbols) returns (code: Byte)
    requires bd.Valid() && huff.Length == TABLE_SIZE && Codes(s, huff[..], bd.Stream())
    requires Bounded(huff[..])
    modifies bd
    ensures bd.Valid() && (s(old(bd.pos)).Some? ==> s(old(bd.pos)).value == Sym(code, bd.pos))
  {
    ghost var L, values :| |L| == 17 && |values| == |Sizes(L)| && s == SymbolsOf(L, values, bd.Stream())
      && TableAgrees(huff[..], Sizes(L), values);
    code := DecodeSymbol(bd, huff, L, values);
  }

  datatype Outcome = More(coeff: nat) | Finished | Overrun

  // One round of the AC loop with the symbol sym: the end of the block, a run past the last coefficient, or a value put
  // in its place.
  ghost predicate RoundOk(sym: Sym, bytes: seq<Byte>, qtab: seq<int>, block: seq<int>, block': seq<int>, c: nat, o: Outcome, p': nat)
    requires |qtab| == |block| == 64
  {
    var at, ssss := c + sym.symbol / 16, sym.symbol % 16;
    if sym.symbol == EOB then o.Finished? && p' == sym.after && block' == block
    else if at > 63 then o.Overrun? && p' == sym.after + ssss && block' == block
    else (
      && o == More(at + 1) && p' == sym.after + ssss && Zigzag(at) < 64
      && block' == block[Zigzag(at) := Received(bytes, sym.after, ssss) * qtab[at]])
  }

  // One round of the AC loop. A run past the last coefficient stops the model here; the program does not look.
  method DecodeRun(bd: BitDecoder, huff: array<HuffCode>, qtab: seq<int>, block: array<int>, c: nat, ghost s: Symbols)
    returns (o: Outcome)
    requires bd.Valid() && huff.Length == TABLE_SIZE && Codes(s, huff[..], bd.Stream()) && 1 <= c < 64
    requires Bounded(huff[..]) && |qtab| == block.Length == 64
    modifies bd, block
    ensures bd.Valid() && (o.More? ==> c < o.coeff <= 64)
    ensures s(old(bd.pos)).Some? ==>
      RoundOk(s(old(bd.pos)).value, bd.Stream(), qtab, old(block[..]), block[..], c, o, bd.pos)
  {
    var code := NextCode(bd, huff, s);
    if code == EOB {
      return Finished;
    }
    var value := Receive(bd, code % 16);
    var coeff := c + code / 16;
    if coeff > 63 {
      return Overrun;
    }
    ZigzagIsPermutation(coeff);
    block[Zigzag(coeff)] := value * qtab[coeff];
    return More(coeff + 1);
  }

  // A round on what the encoder wrote puts its coefficients in place.
  lemma RoundDecodes(s: Symbols, bytes: seq<Byte>, zz: Zigzagged, qtab: seq<int>, dc: int, block: seq<int>, block': seq<int>,
                     p: nat, c: nat, end: nat, o: Outcome, p': nat)
    requires |qtab| == |block| == 64 && 1 <= c < 64 && Decoded(s, bytes, zz, qtab, dc, block, p, c, end)
    requires s(p).Some? ==> RoundOk(s(p).value, bytes, qtab, block, block', c, o, p')
    ensures match o
      case More(next) => Decoded(s, bytes, zz, qtab, dc, block', p', next, end)
      case Finished => p' == end && InPlace(block', zz, qtab, 64, dc)
      case Overrun => false
  {
    NextRun(s, bytes, zz, p, c, end);
    var code, mid := s(p).value.symbol, s(p).value.after;
    if code == EOB {
      RestZero(block, zz, qtab, c, dc);
    } else {
      var at := c + code / 16;
      Place(block, zz, qtab, c, at, dc, zz[at], at + 1);
      NowDecoded(s, bytes, zz, qtab, dc, block', c, code, mid, end, p', at + 1);
    }
  }

  datatype Course = Completes | RunsOver | NoSymbol

  // How the loop ends on any stream: with all coefficients or the end of the block, with a run past the last
  // coefficient, or where the stream has no symbol.
  ghost function CourseOf(s: Symbols, p: nat, c: nat): Course
    decreases 64 - c
  {
    if c >= 64 then Completes
    else if s(p).None? then NoSymbol
    else
      var symbol, after := s(p).value.symbol, s(p).value.after;
      if symbol == EOB then Completes
      else if c + symbol / 16 > 63 then RunsOver
      else CourseOf(s, after + symbol % 16, c + symbol / 16 + 1)
  }

  lemma RoundOnCourse(s: Symbols, bytes: seq<Byte>, qtab: seq<int>, block: seq<int>, block': seq<int>, p: nat, c: nat, o: Outcome, p': nat)
    requires |qtab| == |block| == 64 && c < 64 && s(p).Some? && RoundOk(s(p).value, bytes, qtab, block, block', c, o, p')
    ensures CourseOf(s, p, c) == match o
      case More(next) => CourseOf(s, p', next)
      case Finished => Completes
      case Overrun => RunsOver
  {
  }

  // What the loop has to show before coefficient c; held says that the stream holds coefficients.
  ghost predicate OnCourse(s: Symbols, bytes: seq<Byte>, zz: Zigzagged, qtab: seq<int>, dc: int, block: seq<int>, p: nat, c: nat,
                           course: Course, held: bool, end: nat)
  {
    && (course != NoSymbol ==> CourseOf(s, p, c) == course)
    && (held ==> Decoded(s, bytes, zz, qtab, dc, block, p, c, end))
  }

  method NextRound(bd: BitDecoder, huff: array<HuffCode>, qtab: seq<int>, block: array<int>, c: nat, ghost s: Symbols,
                   ghost zz: Zigzagged, ghost dc: int, ghost course: Course, ghost held: bool, ghost end: nat)
    returns (o: Outcome)
    requires bd.Valid() && huff.Length == TABLE_SIZE && Codes(s, huff[..], bd.Stream()) && 1 <= c < 64
    requires Bounded(huff[..]) && |qtab| == block.Length == 64
    requires OnCourse(s, bd.Stream(), zz, qtab, dc, block[..], bd.pos, c, course, held, end)
    modifies bd, block
    ensures bd.Valid() && (o.More? ==> c < o.coeff <= 64)
    ensures match o
      case More(next) => OnCourse(s, bd.Stream(), zz, qtab, dc, block[..], bd.pos, next, course, held, end)
      case Finished => course != RunsOver && (held ==> bd.pos == end && InPlace(block[..], zz, qtab, 64, dc))
      case Overrun => course != Completes && !held
  {
    ghost var p, before := bd.pos, block[..];
    o := DecodeRun(bd, huff, qtab, block, c, s);
    if held {
      RoundDecodes(s, bd.Stream(), zz, qtab, dc, before, block[..], p, c, end, o, bd.pos);
    }
    if s(p).Some? {
      RoundOnCourse(s, bd.Stream(), qtab, before, block[..], p, c, o, bd.pos);
    }
  }

  // The AC loop. The coefficients the stream holds are decoded, dequantised and put in their places, and nothing after
  // them is read; on other streams it runs over exactly when a run passes the last coefficient.
  method DecodeAc(bd: BitDecoder, huff: array<HuffCode>, qtab: seq<int>, block: array<int>, ghost s: Symbols, ghost zz: Zigzagged,
                  ghost dc: int) returns (ok: bool)
    requires bd.Valid() && huff.Length == TABLE_SIZE && Codes(s, huff[..], bd.Stream())
    requires Bounded(huff[..])
    requires |qtab| == block.Length == 64 && InPlace(block[..], zz, qtab, 1, dc)
    modifies bd, block
    ensures bd.Valid()
    ensures CourseOf(s, old(bd.pos), 1) != NoSymbol ==> (ok <==> CourseOf(s, old(bd.pos), 1) == Completes)
    ensures var e := EndOf(s, bd.Stream(), zz, old(bd.pos), 1);
      e.Some? ==> ok && bd.pos == e.value && InPlace(block[..], zz, qtab, 64, dc)
  {
    ghost var e, course := EndOf(s, bd.Stream(), zz, bd.pos, 1), CourseOf(s, bd.pos, 1);
    ghost var held, end := e.Some?, if e.Some? then e.value else 0;
    var coeff := 1;
    while coeff < 64
      invariant bd.Valid() && 1 <= coeff <= 64
      invariant OnCourse(s, bd.Stream(), zz, qtab, dc, block[..], bd.pos, coeff, course, held, end)
      decreases 64 - coeff
    {
      var o := NextRound(bd, huff, qtab, block, coeff, s, zz, dc, course, held, end);
      match o
      case More(next) => coeff := next;
      case Finished => return true;
      case Overrun => return false;
    }
    return true;
  }
}
