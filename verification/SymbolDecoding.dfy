/** DECODE, RECEIVE and EXTEND of section F.2.2 of ITU-T T.81, and the table lookup of common/pjpeg.c that replaces the
  first of them. */
module SymbolDecoding {
  import opened Powers
  import opened Shifts
  import opened Wrappers
  import opened BitReader
  import opened Huffman

  // ---- Canonical codes ----

  // VALPTR of Annex F: the symbols with a code of size bits start at ptr[size] and end before ptr[size + 1].
  ghost predicate PtrOk(sizes: seq<nat>, ptr: seq<nat>) {
    && |ptr| == 18 && ptr[1] == 0 && ptr[17] == |sizes|
    && forall size :: 1 <= size <= 16 ==> LengthAt(sizes, ptr, size)
  }

  ghost predicate LengthAt(sizes: seq<nat>, ptr: seq<nat>, size: nat)
    requires 1 <= size <= 16 && |ptr| == 18
  {
    ptr[size] <= ptr[size + 1] <= |sizes| && forall k :: ptr[size] <= k < ptr[size + 1] ==> sizes[k] == size
  }

  function ValPtr(L: seq<Byte>, upTo: nat): (ptr: seq<nat>)
    requires |L| == 17 && upTo <= 16
    ensures |ptr| == upTo + 2 && forall size :: 1 <= size <= upTo + 1 ==> ptr[size] == |HuffSize(L, size - 1)|
  {
    if upTo == 0 then [0, 0] else ValPtr(L, upTo - 1) + [|HuffSize(L, upTo)|]
  }

  lemma ValPtrOk(L: seq<Byte>)
    requires |L| == 17
    ensures PtrOk(Sizes(L), ValPtr(L, 16))
  {
    forall size | 1 <= size <= 16
      ensures LengthAt(Sizes(L), ValPtr(L, 16), size)
    {
      SizesOfLength(L, size, 16);
    }
  }

  lemma {:induction false} SizesOfLength(L: seq<Byte>, size: nat, upTo: nat)
    requires |L| == 17 && 1 <= size <= upTo <= 16
    ensures |HuffSize(L, size - 1)| <= |HuffSize(L, size)| <= |HuffSize(L, upTo)|
    ensures forall k :: |HuffSize(L, size - 1)| <= k < |HuffSize(L, size)| ==> HuffSize(L, upTo)[k] == size
    decreases upTo
  {
    if size < upTo {
      SizesOfLength(L, size, upTo - 1);
    }
  }

  // Codes of one length are consecutive numbers.
  lemma {:induction false} CodesAreConsecutive(sizes: seq<nat>, j: nat, k: nat)
    requires j <= k < |sizes| && forall i :: j <= i <= k ==> sizes[i] == sizes[j]
    ensures Code(sizes, k) == Code(sizes, j) + (k - j)
  {
    if j < k {
      CodesAreConsecutive(sizes, j, k - 1);
      }
  }

  // No window begins with two codes.
  lemma PrefixFree(sizes: seq<nat>, j: nat, k: nat, window: nat)
    requires SizesOk(sizes) && j < |sizes| && k < |sizes|
    requires BeginsWith(sizes, j, window) && BeginsWith(sizes, k, window)
    ensures j == k
  {
    BeginsWithIff(sizes, j, window);
    BeginsWithIff(sizes, k, window);
    if j < k {
      StartMono(sizes, j + 1, k);
    } else if k < j {
      StartMono(sizes, k + 1, j);
    }
  }

  // An accepted table has no code of ones only.
  lemma NoCodeOfOnes(sizes: seq<nat>, k: nat)
    requires SizesOk(sizes) && k < |sizes| && Start(sizes, |sizes|) <= 0xffff
    ensures Code(sizes, k) + 1 < Pow2(sizes[k])
  {
    EndsInTable(sizes, k);
    CodeFits(sizes, k);
  }

  lemma EndsInTable(sizes: seq<nat>, k: nat)
    requires SizesOk(sizes) && k < |sizes| && Start(sizes, |sizes|) <= 0xffff
    ensures Start(sizes, k + 1) <= 0xffff
  {
    StartMono(sizes, k + 1, |sizes|);
  }

  lemma CodeFits(sizes: seq<nat>, k: nat)
    requires SizesOk(sizes) && k < |sizes| && Start(sizes, k + 1) <= 0xffff
    ensures Code(sizes, k) + 1 < Pow2(sizes[k])
  {
    StartIsCode(sizes, k);
    var next, end := Code(sizes, k) + 1, Start(sizes, k + 1);
    FitsBelow(end, next, sizes[k]);
  }

  lemma FitsBelow(end: nat, code: nat, size: nat)
    requires size <= 16 && end == Shl(code, 16 - size) && end <= 0xffff
    ensures code < Pow2(size)
  {
    ShlShl(1, size, 16 - size);
    Shl16();
    ShlOne(size);
    ShlStrict(code, Pow2(size), 16 - size);
  }

  lemma Shl16()
    ensures Shl(1, 16) == Pow2(16) == TABLE_SIZE
  {
    ShlOne(8);
    ShlShl(1, 8, 8);
    ShlOne(16);
    assert Pow2(8) == 256;
    assert Shl(256, 8) == 65536;
  }

  // ---- DECODE, figure F.16 ----

  // MAXCODE of Annex F: the largest code of that length, or -1 without one.
  ghost function MaxCode(sizes: seq<nat>, ptr: seq<nat>, size: nat): int
    requires PtrOk(sizes, ptr) && 1 <= size <= 16
  {
    assert LengthAt(sizes, ptr, size);
    if ptr[size] == ptr[size + 1] then -1 else Code(sizes, ptr[size + 1] - 1)
  }

  // Reads bits until the code is no longer above MAXCODE; the result is the index of the symbol, found from MINCODE.
  ghost function DecodeIndex(sizes: seq<nat>, ptr: seq<nat>, bytes: seq<Byte>, p: nat, size: nat): Option<int>
    requires PtrOk(sizes, ptr) && 1 <= size <= 17
    decreases 17 - size
  {
    if size == 17 then None
    else
      var code := BitsAt(bytes, p, size);
      if code > MaxCode(sizes, ptr, size) then DecodeIndex(sizes, ptr, bytes, p, size + 1)
      else
        assert LengthAt(sizes, ptr, size);
        Some(ptr[size] + code - Code(sizes, ptr[size]))
  }

  // A window whose leading digits are above the last code of a length is past all codes of that length.
  lemma PastLength(sizes: seq<nat>, last: nat, window: nat)
    requires SizesOk(sizes) && last < |sizes| && Shr(window, 16 - sizes[last]) > Code(sizes, last)
    ensures Start(sizes, last + 1) <= window
  {
    StartIsCode(sizes, last);
    ShrAtLeast(window, 16 - sizes[last], Code(sizes, last) + 1);
  }

  // Otherwise, unless it comes before them, it begins with one of them, found by subtraction.
  lemma WithinLength(sizes: seq<nat>, first: nat, last: nat, window: nat)
    requires SizesOk(sizes) && first <= last < |sizes| && forall i :: first <= i <= last ==> sizes[i] == sizes[first]
    requires Start(sizes, first) <= window && Shr(window, 16 - sizes[first]) <= Code(sizes, last)
    ensures var k := first + Shr(window, 16 - sizes[first]) - Code(sizes, first);
      first <= k <= last && BeginsWith(sizes, k, window)
  {
    StartIsCode(sizes, first);
    ShrAtLeast(window, 16 - sizes[first], Code(sizes, first));
    CodesAreConsecutive(sizes, first, last);
    CodesAreConsecutive(sizes, first, first + Shr(window, 16 - sizes[first]) - Code(sizes, first));
  }

  // One step of DECODE: the window is past the codes of this length, or the code is found.
  lemma StepPast(sizes: seq<nat>, ptr: seq<nat>, size: nat, window: nat)
    requires SizesOk(sizes) && PtrOk(sizes, ptr) && 1 <= size <= 16
    requires ptr[size] <= |sizes| && Start(sizes, ptr[size]) <= window && Shr(window, 16 - size) > MaxCode(sizes, ptr, size)
    ensures ptr[size + 1] <= |sizes| && Start(sizes, ptr[size + 1]) <= window
  {
    assert LengthAt(sizes, ptr, size);
    if ptr[size] < ptr[size + 1] {
      PastLength(sizes, ptr[size + 1] - 1, window);
    }
  }

  lemma StepFound(sizes: seq<nat>, ptr: seq<nat>, size: nat, window: nat, code: nat)
    requires SizesOk(sizes) && PtrOk(sizes, ptr) && 1 <= size <= 16
    requires ptr[size] <= |sizes| && Start(sizes, ptr[size]) <= window
    requires code == Shr(window, 16 - size) && code <= MaxCode(sizes, ptr, size)
    ensures ptr[size] < |sizes| && Found(sizes, window, Some(ptr[size] + code - Code(sizes, ptr[size])))
  {
    assert LengthAt(sizes, ptr, size);
    WithinLength(sizes, ptr[size], ptr[size + 1] - 1, window);
  }

  // From the first length on whose codes are not all passed, DECODE finds the one code the window begins with.
  lemma {:induction false} DecodeFrom(sizes: seq<nat>, ptr: seq<nat>, bytes: seq<Byte>, p: nat, size: nat, window: nat)
    requires SizesOk(sizes) && PtrOk(sizes, ptr) && 1 <= size <= 17 && window == BitsAt(bytes, p, 16)
    requires ptr[size] <= |sizes| && Start(sizes, ptr[size]) <= window
    ensures Found(sizes, window, DecodeIndex(sizes, ptr, bytes, p, size))
    decreases 17 - size
  {
    if size < 17 {
      LeadingDigits(bytes, p, size, 16 - size);
      var code := BitsAt(bytes, p, size);
      if code > MaxCode(sizes, ptr, size) {
        StepPast(sizes, ptr, size, window);
        DecodeFrom(sizes, ptr, bytes, p, size + 1, window);
      } else {
        StepFound(sizes, ptr, size, window, code);
      }
    }
  }

  // The result is the symbol whose code the window begins with, or the window is past all codes.
  ghost predicate Found(sizes: seq<nat>, window: nat, r: Option<int>)
    requires SizesOk(sizes)
  {
    match r
    case Some(k) => 0 <= k < |sizes| && BeginsWith(sizes, k, window)
    case None => Start(sizes, |sizes|) <= window
  }

  // DECODE yields symbol k exactly when the next bits begin with code k.
  lemma DecodeFindsTheCode(sizes: seq<nat>, ptr: seq<nat>, bytes: seq<Byte>, p: nat, k: nat)
    requires SizesOk(sizes) && PtrOk(sizes, ptr)
    ensures DecodeIndex(sizes, ptr, bytes, p, 1) == Some(k) <==> k < |sizes| && BeginsWith(sizes, k, BitsAt(bytes, p, 16))
  {
    var window, r := BitsAt(bytes, p, 16), DecodeIndex(sizes, ptr, bytes, p, 1);
    DecodeFrom(sizes, ptr, bytes, p, 1, window);
    if k < |sizes| && BeginsWith(sizes, k, window) {
      BeforeEnd(sizes, k, window);
      PrefixFree(sizes, k, r.value, window);
    }
  }

  lemma BeforeEnd(sizes: seq<nat>, k: nat, window: nat)
    requires SizesOk(sizes) && k < |sizes| && BeginsWith(sizes, k, window)
    ensures window < Start(sizes, |sizes|)
  {
    BeginsWithIff(sizes, k, window);
    StartMono(sizes, k + 1, |sizes|);
  }

  // The symbol at bit position p, by DECODE.
  ghost function NextSymbol(L: seq<Byte>, bytes: seq<Byte>, p: nat): (r: Option<int>)
    requires |L| == 17
    ensures SizesOk(Sizes(L)) && Found(Sizes(L), BitsAt(bytes, p, 16), r)
  {
    HuffSizeOk(L, 16);
    ValPtrOk(L);
    DecodeFrom(Sizes(L), ValPtr(L, 16), bytes, p, 1, BitsAt(bytes, p, 16));
    DecodeIndex(Sizes(L), ValPtr(L, 16), bytes, p, 1)
  }

  // Where DECODE finds a symbol at bit position p, it is this one and p' is the position after its code.
  ghost predicate SymbolRead(next: Option<int>, sizes: seq<nat>, values: seq<Byte>, p: nat, code: Byte, p': nat)
    requires |values| == |sizes| && (next.Some? ==> 0 <= next.value < |sizes|)
  {
    next.Some? ==> code == values[next.value] && p' == p + sizes[next.value]
  }

  // Peek at 16 bits, look them up, consume the length found: DECODE in one step.
  method DecodeSymbol(bd: BitDecoder, huff: array<HuffCode>, ghost L: seq<Byte>, ghost values: seq<Byte>) returns (code: Byte)
    requires bd.Valid() && huff.Length == TABLE_SIZE && |L| == 17 && TableAgrees(huff[..], Sizes(L), values)
    requires Bounded(huff[..])
    modifies bd
    ensures bd.Valid() && SymbolRead(NextSymbol(L, bd.Stream(), old(bd.pos)), Sizes(L), values, old(bd.pos), code, bd.pos)
  {
    Shl16();
    ghost var next := NextSymbol(L, bd.Stream(), bd.pos);
    var next16 := bd.Peek(16);
    var huff_code := huff[next16];
    assert next.Some? ==> huff[..][next16] == HuffCode(Sizes(L)[next.value], values[next.value]);
    var _ := bd.Consume(huff_code.nbits);
    code := huff_code.code;
  }

  // ---- RECEIVE and EXTEND, and the additional bits of section F.1.2.1 ----

  // A value of magnitude category ssss: table F.1.
  ghost predicate HasCategory(value: int, ssss: nat) {
    if ssss == 0 then value == 0
    else Pow2(ssss - 1) <= value < Pow2(ssss) || Pow2(ssss - 1) <= -value < Pow2(ssss)
  }

  // The bits the encoder appends: the low ssss bits of the value, or of the value less one when it is negative, in
  // two's complement.
  function AdditionalBits(value: int, ssss: nat): nat
    requires HasCategory(value, ssss)
  {
    if value > 0 then value else value - 1 + Pow2(ssss)
  }

  function Extend(v: nat, ssss: nat): int {
    if ssss == 0 || Shr(v, ssss - 1) % 2 == 0 then v - Pow2(ssss) + 1 else v
  }

  // The highest bit tells the half a value of ssss bits is in.
  lemma HighBit(v: nat, ssss: nat)
    requires 0 < ssss && v < Pow2(ssss)
    ensures Shr(v, ssss - 1) % 2 == 0 <==> v < Pow2(ssss - 1)
  {
    ShrAtLeast(v, ssss - 1, 1);
    ShrAtLeast(v, ssss - 1, 2);
    ShlOne(ssss - 1);
    ShlAdd(1, 1, ssss - 1);
  }

  // EXTEND undoes the encoder, whatever the value.
  lemma ExtendUndoes(value: int, ssss: nat)
    requires HasCategory(value, ssss)
    ensures AdditionalBits(value, ssss) < Pow2(ssss) && Extend(AdditionalBits(value, ssss), ssss) == value
  {
    if ssss > 0 {
      HighBit(AdditionalBits(value, ssss), ssss);
    }
  }

  // Every pattern of ssss bits extends to a value of that category, whose bits it is.
  lemma ExtendIsOnto(v: nat, ssss: nat)
    requires v < Pow2(ssss)
    ensures HasCategory(Extend(v, ssss), ssss) && AdditionalBits(Extend(v, ssss), ssss) == v
  {
    if ssss > 0 {
      HighBit(v, ssss);
    }
  }

  // Bits with a leading one are a positive value, bits with a leading zero the values from the least one of the
  // category on.
  lemma ExtendSign(v: nat, ssss: nat)
    requires 0 < ssss && v < Pow2(ssss)
    ensures v >= Pow2(ssss - 1) ==> Extend(v, ssss) == v
    ensures v < Pow2(ssss - 1) ==> Extend(v, ssss) == v + 1 - Pow2(ssss) < 0
  {
    HighBit(v, ssss);
  }

  // A value has one category only.
  lemma CategoryUnique(value: int, s: nat, t: nat)
    requires HasCategory(value, s) && HasCategory(value, t)
    ensures s == t
  {
    if s < t {
      Pow2Mono(s, t - 1);
    } else if t < s {
      Pow2Mono(t, s - 1);
    }
  }

  // The sign test of the decoder: without additional bits the value is zero and stays zero.
  method ExtendBits(bits: nat, ssss: nat) returns (value: int)
    requires bits < Pow2(ssss)
    ensures value == Extend(bits, ssss) && HasCategory(value, ssss) && AdditionalBits(value, ssss) == bits
  {
    ExtendIsOnto(bits, ssss);
    value := bits;
    if ssss == 0 || Shr(bits, ssss - 1) % 2 == 0 {
      value := value - Pow2(ssss) + 1;
    }
  }

  // RECEIVE and EXTEND at bit position p.
  ghost function Received(bytes: seq<Byte>, p: nat, ssss: nat): int {
    Extend(BitsAt(bytes, p, ssss), ssss)
  }

  method Receive(bd: BitDecoder, ssss: nat) returns (value: int)
    requires bd.Valid() && ssss < 16
    modifies bd
    ensures bd.Valid() && bd.pos == old(bd.pos) + ssss && value == Received(bd.Stream(), old(bd.pos), ssss)
  {
    var bits := bd.Consume(ssss);
    value := ExtendBits(bits, ssss);
  }

  // The additional bits of a value, received, are the value again.
  lemma ReceiveUndoes(bytes: seq<Byte>, p: nat, value: int, ssss: nat)
    requires HasCategory(value, ssss) && BitsAt(bytes, p, ssss) == AdditionalBits(value, ssss)
    ensures Received(bytes, p, ssss) == value
  {
    ExtendUndoes(value, ssss);
  }

  // Where DECODE finds a symbol, the value is received from as many bits as its low digit says.
  ghost predicate DifferenceRead(next: Option<int>, sizes: seq<nat>, values: seq<Byte>, bytes: seq<Byte>, p: nat, value: int, p': nat)
    requires |values| == |sizes| && (next.Some? ==> 0 <= next.value < |sizes|)
  {
    next.Some? ==>
      var mid, ssss := p + sizes[next.value], values[next.value] % 16;
      value == Received(bytes, mid, ssss) && p' == mid + ssss
  }

  lemma SymbolThenBits(next: Option<int>, sizes: seq<nat>, values: seq<Byte>, bytes: seq<Byte>, p: nat, code: Byte, mid: nat)
    requires |values| == |sizes| && (next.Some? ==> 0 <= next.value < |sizes|) && SymbolRead(next, sizes, values, p, code, mid)
    ensures DifferenceRead(next, sizes, values, bytes, p, Received(bytes, mid, code % 16), mid + code % 16)
  {
    if next.Some? {
      var k := next.value;
      assert code == values[k] && mid == p + sizes[k];
    }
  }

  // A DC difference.
  method DecodeDifference(bd: BitDecoder, huff: array<HuffCode>, ghost L: seq<Byte>, ghost values: seq<Byte>)
    returns (value: int)
    requires bd.Valid() && huff.Length == TABLE_SIZE && |L| == 17 && TableAgrees(huff[..], Sizes(L), values)
    requires Bounded(huff[..])
    modifies bd
    ensures bd.Valid() && DifferenceRead(NextSymbol(L, bd.Stream(), old(bd.pos)), Sizes(L), values, bd.Stream(), old(bd.pos), value, bd.pos)
  {
    ghost var bytes, sizes, p := bd.Stream(), Sizes(L), bd.pos;
    ghost var next := NextSymbol(L, bytes, p);
    var code := DecodeSymbol(bd, huff, L, values);
    SymbolThenBits(next, sizes, values, bytes, p, code, bd.pos);
    value := Receive(bd, code % 16);
  }
}
