/** The bit decoder of common/pjpeg.c: reads the entropy-coded bytes of a JPEG, undoing byte stuffing. */
module BitReader {
  import opened Powers
  import opened Shifts

  type Byte = b: nat | b < 256

  // The width of the bit buffer.
  const WORD: nat := 32

  const OCTET: nat := 8

  // The bytes from position i on without the zero that follows each 0xff.
  function Unstuff(data: seq<Byte>, i: nat): seq<Byte>
    requires i <= |data|
    decreases |data| - i
  {
    if i == |data| then []
    else if data[i] == 0xff && i + 1 < |data| && data[i + 1] == 0 then [0xff] + Unstuff(data, i + 2)
    else [data[i]] + Unstuff(data, i + 1)
  }

  // What an encoder writes for the bytes s: a zero after each 0xff.
  function Stuff(s: seq<Byte>): seq<Byte> {
    if s == [] then [] else (if s[0] == 0xff then [0xff, 0] else [s[0]]) + Stuff(s[1..])
  }

  lemma {:induction false} UnstuffFrom(before: seq<Byte>, s: seq<Byte>)
    ensures Unstuff(before + Stuff(s), |before|) == s
    decreases s
  {
    var data := before + Stuff(s);
    if s != [] {
      var first := if s[0] == 0xff then [0xff, 0] else [s[0]];
      assert Stuff(s) == first + Stuff(s[1..]);
      assert data == (before + first) + Stuff(s[1..]);
      UnstuffFrom(before + first, s[1..]);
      assert data[|before|] == s[0];
    }
  }

  /** Unstuffing undoes stuffing. */
  lemma UnstuffStuff(s: seq<Byte>)
    ensures Unstuff(Stuff(s), 0) == s
  {
    assert [] + Stuff(s) == Stuff(s);
    UnstuffFrom([], s);
  }

  // An 0xff with a zero behind it.
  predicate Stuffed(data: seq<Byte>, i: nat) {
    i + 1 < |data| && data[i] == 0xff && data[i + 1] == 0
  }

  // How many there are from position i on.
  function Pairs(data: seq<Byte>, i: nat): nat
    requires i <= |data|
    decreases |data| - i
  {
    if i == |data| then 0 else (if Stuffed(data, i) then 1 else 0) + Pairs(data, i + 1)
  }

  lemma {:induction false} UnstuffLength(data: seq<Byte>, i: nat)
    requires i <= |data|
    ensures |Unstuff(data, i)| == |data| - i - Pairs(data, i)
    decreases |data| - i
  {
    if i < |data| {
      if Stuffed(data, i) {
        assert !Stuffed(data, i + 1);
        UnstuffLength(data, i + 2);
      } else {
        UnstuffLength(data, i + 1);
      }
    }
  }

  lemma {:induction false} NothingStuffed(data: seq<Byte>, i: nat)
    requires i <= |data| && forall k: nat :: !Stuffed(data, k)
    ensures Unstuff(data, i) == data[i..]
    decreases |data| - i
  {
    if i < |data| {
      assert !Stuffed(data, i);
      NothingStuffed(data, i + 1);
    }
  }

  // Byte k of the stream; past its end there are ones.
  function ByteAt(bytes: seq<Byte>, k: nat): Byte {
    if k < |bytes| then bytes[k] else 0xff
  }

  function BitAt(bytes: seq<Byte>, k: nat): (b: nat)
    ensures b < 2
  {
    Shr(ByteAt(bytes, k / 8), 7 - k % 8) % 2
  }

  // The value of n bits from bit p on, most significant first.
  function BitsAt(bytes: seq<Byte>, p: nat, n: nat): nat {
    if n == 0 then 0 else 2 * BitsAt(bytes, p, n - 1) + BitAt(bytes, p + n - 1)
  }

  lemma {:induction false} BitsBound(bytes: seq<Byte>, p: nat, n: nat)
    ensures BitsAt(bytes, p, n) < Pow2(n)
  {
    if n > 0 {
      BitsBound(bytes, p, n - 1);
    }
  }

  // The first m of the bits are their leading digits.
  lemma {:induction false} LeadingDigits(bytes: seq<Byte>, p: nat, m: nat, n: nat)
    ensures Shr(BitsAt(bytes, p, m + n), n) == BitsAt(bytes, p, m)
  {
    if n > 0 {
      LeadingDigits(bytes, p, m, n - 1);
      ShrHalf(BitsAt(bytes, p, m + n), n);
    }
  }

  // Eight bits from a byte boundary are that byte.
  lemma ByteBits(bytes: seq<Byte>, k: nat)
    ensures BitsAt(bytes, 8 * k, 8) == ByteAt(bytes, k)
  {
    BitsOfByte(bytes, k, 8);
  }

  lemma ByteEnds(b: Byte)
    ensures Shr(b, 8) == 0
  {
    ShrAtLeast(b, 8, 1);
    ShlOne(8);
    assert Pow2(8) == 256;
  }

  lemma {:induction false} BitsOfByte(bytes: seq<Byte>, k: nat, n: nat)
    requires n <= 8
    ensures BitsAt(bytes, 8 * k, n) == Shr(ByteAt(bytes, k), 8 - n)
  {
    if n == 0 {
      ByteEnds(ByteAt(bytes, k));
    } else {
      BitsOfByte(bytes, k, n - 1);
      assert (8 * k + n - 1) / 8 == k && (8 * k + n - 1) % 8 == n - 1;
    }
  }

  // The buffer after a bit has been shifted in holds one more bit of the stream.
  lemma {:induction false} ShiftInBits(bytes: seq<Byte>, pos: nat, avail: nat, bits: nat, n: nat)
    requires Low(bits, avail) == BitsAt(bytes, pos, avail) && (pos + avail) % 8 == 0 && n <= 8
    ensures var byte := ByteAt(bytes, (pos + avail) / 8);
      Low(Shl(bits, n) + Shr(byte, 8 - n), avail + n) == BitsAt(bytes, pos, avail + n)
  {
    var fed := (pos + avail) / 8;
    var byte := ByteAt(bytes, fed);
    if n == 0 {
      ByteEnds(byte);
    } else {
      ShiftInBits(bytes, pos, avail, bits, n - 1);
      var before, bit := Shl(bits, n - 1) + Shr(byte, 8 - n + 1), Shr(byte, 8 - n) % 2;
      assert Shl(bits, n) + Shr(byte, 8 - n) == 2 * before + bit;
      assert (2 * before + bit) / 2 == before && (2 * before + bit) % 2 == bit;
      assert (pos + avail + n - 1) / 8 == fed && (pos + avail + n - 1) % 8 == n - 1;
    }
  }

  // How many of so many bits the buffer holds.
  function Fit(avail: nat): nat {
    if avail <= WORD then avail else WORD
  }

  // The stream's next avail bits are at the low end of the buffer, as far as they fit.
  ghost predicate Buffered(bytes: seq<Byte>, pos: nat, bits: nat, avail: nat) {
    bits < Pow2(WORD) && Low(bits, Fit(avail)) == Low(BitsAt(bytes, pos, avail), Fit(avail))
  }

  lemma BufferedExactly(bytes: seq<Byte>, pos: nat, bits: nat, avail: nat)
    requires avail <= WORD && bits < Pow2(WORD)
    ensures Buffered(bytes, pos, bits, avail) <==> Low(bits, avail) == BitsAt(bytes, pos, avail)
  {
    BitsBound(bytes, pos, avail);
    LowOfSmall(BitsAt(bytes, pos, avail), avail);
  }

  // The buffer after a byte has been appended holds the next eight bits too.
  lemma FeedValue(bytes: seq<Byte>, pos: nat, avail: nat, fed: nat, bits: nat)
    requires avail <= WORD && pos + avail == 8 * fed && Buffered(bytes, pos, bits, avail)
    ensures Buffered(bytes, pos, Low(Shl(bits, OCTET) + ByteAt(bytes, fed), WORD), avail + OCTET)
  {
    BufferedExactly(bytes, pos, bits, avail);
    ShiftInOctet(bytes, pos, avail, fed, bits);
    Truncated(Shl(bits, OCTET) + ByteAt(bytes, fed), BitsAt(bytes, pos, avail + OCTET), avail + OCTET);
  }

  lemma ShiftInOctet(bytes: seq<Byte>, pos: nat, avail: nat, fed: nat, bits: nat)
    requires pos + avail == 8 * fed && Low(bits, avail) == BitsAt(bytes, pos, avail)
    ensures Low(Shl(bits, OCTET) + ByteAt(bytes, fed), avail + OCTET) == BitsAt(bytes, pos, avail + OCTET)
  {
    ShiftInBits(bytes, pos, avail, bits, OCTET);
  }

  lemma Truncated(x: nat, window: nat, avail: nat)
    requires Low(x, avail) == window
    ensures Low(x, WORD) < Pow2(WORD) && Low(Low(x, WORD), Fit(avail)) == Low(window, Fit(avail))
  {
    LowBound(x, WORD);
    LowOfLow(x, WORD, Fit(avail));
    LowOfLow(x, avail, Fit(avail));
  }

  // The bits available once there are n of them.
  function After(avail: nat, n: nat): (k: nat)
    ensures avail <= k && n <= k && (k == avail || k < n + OCTET)
    decreases n - avail
  {
    if avail >= n then avail else After(avail + OCTET, n)
  }

  // What the n top bits of a buffer of avail bits show of the next n bits of the stream: all of them, unless there are
  // more than fit; then the first ones are lost.
  ghost function TopOf(bytes: seq<Byte>, p: nat, avail: nat, n: nat): nat
    requires n <= avail <= n + WORD
  {
    if avail <= WORD then BitsAt(bytes, p, n) else Low(BitsAt(bytes, p, n), WORD - (avail - n))
  }

  lemma Taken(bytes: seq<Byte>, pos: nat, bits: nat, avail: nat, n: nat)
    requires Buffered(bytes, pos, bits, avail) && n <= avail <= n + WORD
    ensures Low(Shr(bits, avail - n), n) == TopOf(bytes, pos, avail, n)
    ensures Buffered(bytes, pos + n, bits, avail - n)
  {
    if avail <= WORD {
      TakenExactly(bytes, pos, bits, avail, n);
    } else {
      TakenTruncated(bytes, pos, bits, avail, n);
    }
  }

  lemma TakenTruncated(bytes: seq<Byte>, pos: nat, bits: nat, avail: nat, n: nat)
    requires Buffered(bytes, pos, bits, avail) && WORD < avail <= n + WORD && n <= avail
    ensures Low(Shr(bits, avail - n), n) == Low(BitsAt(bytes, pos, n), WORD - (avail - n))
    ensures Buffered(bytes, pos + n, bits, avail - n)
  {
    TopBits(bytes, pos, bits, avail, n, WORD);
    BufferedExactly(bytes, pos + n, bits, avail - n);
  }

  lemma TakenExactly(bytes: seq<Byte>, pos: nat, bits: nat, avail: nat, n: nat)
    requires Buffered(bytes, pos, bits, avail) && n <= avail <= WORD
    ensures Low(Shr(bits, avail - n), n) == BitsAt(bytes, pos, n)
    ensures Buffered(bytes, pos + n, bits, avail - n)
  {
    BufferedExactly(bytes, pos, bits, avail);
    NextBits(bytes, pos, bits, avail, n);
    BufferedExactly(bytes, pos + n, bits, avail - n);
  }

  lemma TopBits(bytes: seq<Byte>, pos: nat, bits: nat, k: nat, n: nat, word: nat)
    requires n <= k && k - n <= word < k && bits < Pow2(word) && Low(bits, word) == Low(BitsAt(bytes, pos, k), word)
    ensures Low(Shr(bits, k - n), n) == Low(BitsAt(bytes, pos, n), word - (k - n))
    ensures Low(bits, k - n) == BitsAt(bytes, pos + n, k - n)
  {
    var window, next := BitsAt(bytes, pos, k), BitsAt(bytes, pos, n);
    LowOfSmall(bits, word);
    LeadingDigits(bytes, pos, n, k - n);
    ShrLow(window, word, k - n);
    assert Shr(bits, k - n) == Low(next, word - (k - n));
    LowAgain(next, word - (k - n), n);
    LowOfLow(window, word, k - n);
    BitsBound(bytes, pos, k);
    LowOfSmall(window, k);
    NextBits(bytes, pos, window, k, n);
  }

  lemma LowAgain(x: nat, m: nat, n: nat)
    requires m <= n
    ensures Low(Low(x, m), n) == Low(x, m)
  {
    LowBound(x, m);
    Pow2Mono(m, n);
    LowOfSmall(Low(x, m), n);
  }

  // With the stream's next avail bits at the low end of the buffer, its next n bits are the top ones of those.
  lemma {:induction false} NextBits(bytes: seq<Byte>, pos: nat, bits: nat, avail: nat, n: nat)
    requires n <= avail && Low(bits, avail) == BitsAt(bytes, pos, avail)
    ensures Low(Shr(bits, avail - n), n) == BitsAt(bytes, pos, n)
    ensures Low(bits, avail - n) == BitsAt(bytes, pos + n, avail - n)
    decreases avail
  {
    if n < avail {
      NextBits(bytes, pos, bits / 2, avail - 1, n);
      ShrHalf(bits, avail - n);
      assert pos + n + (avail - n) - 1 == pos + avail - 1;
    }
  }

  class BitDecoder {
    const data: seq<Byte>
    var inpos: nat
    var bits: nat
    var nbits_avail: nat
    // Bits consumed and bytes fed so far.
    ghost var pos: nat
    ghost var fed: nat

    ghost function Stream(): seq<Byte> {
      Unstuff(data, 0)
    }

    ghost predicate Valid()
      reads this
    {
      nbits_avail <= WORD && Loose()
    }

    // Like Valid, while the buffer may be asked for more bits than it holds.
    ghost predicate Loose()
      reads this
    {
      InputOk() && BufferOk()
    }

    ghost predicate InputOk()
      reads this
    {
      && inpos <= |data|
      && (if fed <= |Stream()| then Stream()[fed..] == Unstuff(data, inpos) else inpos == |data|)
    }

    ghost predicate BufferOk()
      reads this
    {
      pos + nbits_avail == 8 * fed && Buffered(Stream(), pos, bits, nbits_avail)
    }

    constructor (data: seq<Byte>)
      ensures Valid() && this.data == data && pos == 0
    {
      this.data := data;
      inpos, bits, nbits_avail, pos, fed := 0, 0, 0, 0, 0;
    }

    // Appends one byte of the stream to the bit buffer.
    method Feed(nextbyte: Byte)
      requires BufferOk() && nbits_avail < WORD && nextbyte == ByteAt(Stream(), fed)
      modifies this`bits, this`nbits_avail, this`fed
      ensures BufferOk() && nbits_avail == old(nbits_avail) + 8 && fed == old(fed) + 1
    {
      FeedValue(Stream(), pos, nbits_avail, fed, bits);
      bits := Low(Shl(bits, OCTET) + nextbyte, WORD);
      nbits_avail := nbits_avail + OCTET;
      fed := fed + 1;
    }

    // One round of bd_ensure: the next byte without its stuffing, or ones at the end of the input.
    method FeedNext()
      requires Valid() && nbits_avail < WORD
      modifies this`inpos, this`bits, this`nbits_avail, this`fed
      ensures Loose() && nbits_avail == old(nbits_avail) + 8
    {
      if inpos >= |data| {
        Feed(0xff);
      } else {
        var nextbyte := data[inpos];
        ghost var rest := Unstuff(data, inpos);
        assert Stream()[fed] == rest[0] == nextbyte;
        assert Stream()[fed + 1..] == rest[1..];
        inpos := inpos + 1;
        if nextbyte == 0xff && inpos < |data| && data[inpos] == 0x00 {
          nextbyte := 0xff;
          inpos := inpos + 1;
        }
        Feed(nextbyte);
      }
    }

    // bd_ensure
    method Ensure(nbits: nat)
      requires Loose() && nbits < WORD
      modifies this`inpos, this`bits, this`nbits_avail, this`fed
      ensures Loose() && nbits_avail == After(old(nbits_avail), nbits)
      ensures old(nbits_avail) <= WORD && nbits <= 25 ==> Valid()
    {
      while nbits_avail < nbits
        invariant Loose() && After(nbits_avail, nbits) == After(old(nbits_avail), nbits)
        decreases nbits - nbits_avail
      {
        FeedNext();
      }
    }

    // The shift and the mask.
    method Top(nbits: nat) returns (v: nat)
      requires Loose() && nbits <= nbits_avail <= nbits + WORD
      ensures v == TopOf(Stream(), pos, nbits_avail, nbits)
      ensures nbits_avail <= WORD ==> v == BitsAt(Stream(), pos, nbits) < Pow2(nbits)
      ensures Buffered(Stream(), pos + nbits, bits, nbits_avail - nbits)
    {
      Taken(Stream(), pos, bits, nbits_avail, nbits);
      BitsBound(Stream(), pos, nbits);
      v := Low(Shr(bits, nbits_avail - nbits), nbits);
    }

    // bd_peek_bits, with a shift by no more than the width of the buffer
    method Peek(nbits: nat) returns (v: nat)
      requires Loose() && nbits < WORD && nbits_avail <= nbits + WORD
      modifies this`inpos, this`bits, this`nbits_avail, this`fed
      ensures Loose() && nbits_avail == After(old(nbits_avail), nbits) && v == TopOf(Stream(), pos, nbits_avail, nbits)
      ensures old(nbits_avail) <= WORD && nbits <= 25 ==> Valid() && v == BitsAt(Stream(), pos, nbits) < Pow2(nbits)
    {
      Ensure(nbits);
      v := Top(nbits);
    }

    // bd_consume_bits: up to 25 bits are exactly the next bits of the unstuffed stream, then ones.
    method Consume(nbits: nat) returns (v: nat)
      requires Loose() && nbits < WORD && nbits_avail <= nbits + WORD
      modifies this
      ensures Valid() && pos == old(pos) + nbits && nbits_avail == After(old(nbits_avail), nbits) - nbits
      ensures v == TopOf(Stream(), old(pos), After(old(nbits_avail), nbits), nbits)
      ensures old(nbits_avail) <= WORD && nbits <= 25 ==> v == BitsAt(Stream(), old(pos), nbits) < Pow2(nbits)
    {
      Ensure(nbits);
      v := Top(nbits);
      nbits_avail := nbits_avail - nbits;
      pos := pos + nbits;
    }
  }

  // Eight bits from a byte boundary.
  method ReadByte(bd: BitDecoder, ghost k: nat) returns (v: nat)
    requires bd.Valid() && bd.pos == 8 * k
    modifies bd
    ensures bd.Valid() && bd.pos == 8 * (k + 1) && v == ByteAt(bd.Stream(), k)
  {
    v := bd.Consume(8);
    ByteBits(bd.Stream(), k);
  }

  /** Reading a stuffed stream byte by byte gives the bytes that were stuffed. */
  method ReadBytes(s: seq<Byte>) returns (r: seq<nat>)
    ensures r == s
  {
    var bd := new BitDecoder(Stuff(s));
    UnstuffStuff(s);
    assert bd.Stream() == s;
    r := [];
    for k := 0 to |s|
      invariant fresh(bd) && bd.Valid() && bd.Stream() == s && bd.pos == 8 * k && r == s[..k]
    {
      var v := ReadByte(bd, k);
      r := r + [v];
    }
  }

  // How many bits the buffer holds or has room for in whole bytes.
  function Room(avail: nat): nat
    requires avail <= WORD
  {
    avail + (WORD - avail) / 8 * 8
  }

  lemma {:induction false} FitsIff(avail: nat, n: nat)
    requires avail <= WORD && n < WORD
    ensures After(avail, n) <= WORD <==> n <= Room(avail)
    decreases n - avail
  {
    if avail < n && avail + OCTET <= WORD {
      FitsIff(avail + OCTET, n);
    }
  }

  lemma {:induction false} OnesOfByte(k: nat)
    requires k <= 8
    ensures Shr(0xff, k) == Pow2(8 - k) - 1
  {
    if k == 0 {
      assert Pow2(8) == 256;
    } else {
      OnesOfByte(k - 1);
      OddOnes(9 - k);
    }
  }

  // Past the end of the input every bit is a one.
  lemma OnePastTheEnd(p: nat)
    ensures BitAt([], p) == 1
  {
    var k := 7 - p % 8;
    OnesOfByte(k);
    OddOnes(8 - k);
  }

  lemma {:induction false} OnesPastTheEnd(p: nat, n: nat)
    ensures BitsAt([], p, n) == Pow2(n) - 1
  {
    if n > 0 {
      OnesPastTheEnd(p, n - 1);
      OnePastTheEnd(p + n - 1);
    }
  }

  lemma OddOnes(n: nat)
    requires n > 0
    ensures (Pow2(n) - 1) % 2 == 1 && (Pow2(n) - 1) / 2 == Pow2(n - 1) - 1
  {
    Odd(Pow2(n) - 1, Pow2(n - 1) - 1);
  }

  lemma Odd(x: nat, half: nat)
    requires x == 2 * half + 1
    ensures x % 2 == 1 && x / 2 == half
  {
  }

  lemma {:induction false} LowOfOnes(m: nat, n: nat)
    requires m <= n
    ensures Low(Pow2(n) - 1, m) == Pow2(m) - 1
  {
    if m > 0 {
      OddOnes(n);
      LowOfOnes(m - 1, n - 1);
    }
  }

  lemma Pow2Strict(m: nat, n: nat)
    requires m < n
    ensures Pow2(m) < Pow2(n)
  {
    Pow2Mono(m, n - 1);
  }

  // On every stream and from every position, n bits asked for with avail at hand come out as they are in the stream.
  ghost predicate Exact(avail: nat, n: nat)
    requires avail <= WORD && n < WORD
  {
    forall bytes: seq<Byte>, p: nat :: (p + avail) % 8 == 0 ==>
      TopOf(bytes, p, After(avail, n), n) == BitsAt(bytes, p, n)
  }

  /** A request gives the bits of every stream if and only if it fits into the bits at hand and the whole bytes there is
    room for: a larger one loses its first bits. */
  lemma NothingLostIff(avail: nat, n: nat)
    requires avail <= WORD && n < WORD
    ensures Exact(avail, n) <==> n <= Room(avail)
  {
    FitsIff(avail, n);
    var k := After(avail, n);
    if k > WORD {
      var p := 8 * avail - avail;
      assert (p + avail) % 8 == 0;
      var kept := WORD - (k - n);
      OnesPastTheEnd(p, n);
      LowOfOnes(kept, n);
      Pow2Strict(kept, n);
      assert TopOf([], p, k, n) != BitsAt([], p, n);
    }
  }
}
