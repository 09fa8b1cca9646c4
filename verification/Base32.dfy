/**
 `base32_encode`: the grouping and padding of section 6 of RFC 4648 with Nimiq's alphabet, computed through a bit buffer
 that is never masked.
 */
module Base32 {
  import opened Arithmetic
  import opened Machine
  import Wire

  const ALPHABET: string := "0123456789ABCDEFGHJKLMNPQRSTUVXY"

  const MAX_INPUT: int := 0x1000_0000 // 1 << 28

  // ---------------------------------------------------------------------------------------------------------------
  // Bits and the numbers they form

  /** The `width` low bits of a number, most significant bit first. */
  function BitsOf(x: nat, width: nat): (bits: seq<int>)
    ensures |bits| == width
  {
    if width == 0 then [] else BitsOf(x / 2, width - 1) + [x % 2]
  }

  /** The number that bits form, most significant bit first. */
  function Number(bits: seq<int>): int {
    if bits == [] then 0 else 2 * Number(bits[..|bits| - 1]) + bits[|bits| - 1]
  }

  predicate AllBits(bits: seq<int>) {
    forall k :: 0 <= k < |bits| ==> bits[k] == 0 || bits[k] == 1
  }

  lemma {:induction false} BitsOfAreBits(x: nat, width: nat)
    ensures AllBits(BitsOf(x, width))
  {
    if width > 0 {
      BitsOfAreBits(x / 2, width - 1);
    }
  }

  /** The low bits form the remainder. */
  lemma {:induction false} NumberOfBits(x: nat, width: nat)
    ensures Number(BitsOf(x, width)) == x % Pow2(width)
  {
    if width > 0 {
      NumberOfBits(x / 2, width - 1);
      HalfDivMod(x, Pow2(width - 1));
      assert BitsOf(x, width)[..width - 1] == BitsOf(x / 2, width - 1);
    }
  }

  /** The bits of the number that bits form are those bits. */
  lemma {:induction false} BitsOfNumber(bits: seq<int>)
    requires AllBits(bits)
    ensures 0 <= Number(bits) < Pow2(|bits|) && BitsOf(Number(bits), |bits|) == bits
  {
    if bits != [] {
      var init, last := bits[..|bits| - 1], bits[|bits| - 1];
      BitsOfNumber(init);
      assert Number(bits) / 2 == Number(init) && Number(bits) % 2 == last;
      assert bits == init + [last];
    }
  }

  /** Bits that are shifted out at the top of a word do not matter to those below. */
  lemma {:induction false} HighBitsIrrelevant(x: nat, c: nat, m: nat, width: nat)
    requires width <= m
    ensures x + c * Pow2(m) >= 0 && BitsOf(x + c * Pow2(m), width) == BitsOf(x, width)
  {
    MulNonNegative(c, Pow2(m));
    if width > 0 {
      MulNonNegative(c, Pow2(m - 1));
      TwoTimes(c, Pow2(m - 1));
      HighBitsIrrelevant(x / 2, c, m - 1, width - 1);
      LowBit(x, c * Pow2(m - 1), width);
    }
  }

  lemma TwoTimes(c: int, p: int)
    ensures c * (2 * p) == 2 * (c * p)
  {
  }

  lemma LowBit(x: nat, y: nat, width: nat)
    requires width > 0
    ensures BitsOf(x + 2 * y, width) == BitsOf(x / 2 + y, width - 1) + [x % 2]
  {
    assert (x + 2 * y) / 2 == x / 2 + y && (x + 2 * y) % 2 == x % 2;
  }

  /** Shifting left makes room for new low bits. */
  lemma {:induction false} ShiftIn(x: nat, d: nat, width: nat, k: nat)
    requires d < Pow2(k)
    ensures x * Pow2(k) + d >= 0 && BitsOf(x * Pow2(k) + d, width + k) == BitsOf(x, width) + BitsOf(d, k)
  {
    MulNonNegative(x, Pow2(k));
    if k > 0 {
      ShiftIn(x, d / 2, width, k - 1);
      assert x * Pow2(k) == 2 * (x * Pow2(k - 1));
      assert BitsOf(x, width) + BitsOf(d, k) == (BitsOf(x, width) + BitsOf(d / 2, k - 1)) + [d % 2];
    } else {
      assert x * Pow2(0) + d == x;
    }
  }

  /** The same on a 32-bit word. */
  lemma ShiftInWord(x: u32, d: nat, width: nat, k: nat)
    requires d < Pow2(k) && width + k <= 32
    ensures x * Pow2(k) % 0x1_0000_0000 >= 0
    ensures BitsOf(x * Pow2(k) % 0x1_0000_0000 + d, width + k) == BitsOf(x, width) + BitsOf(d, k)
  {
    ShiftIn(x, d, width, k);
    WordPower();
    var y := x * Pow2(k);
    MulNonNegative(x, Pow2(k));
    HighBitsIrrelevant(y % 0x1_0000_0000 + d, y / 0x1_0000_0000, 32, width + k);
    assert y % 0x1_0000_0000 + d + y / 0x1_0000_0000 * 0x1_0000_0000 == y + d;
  }

  /** Shifting right drops low bits. */
  lemma {:induction false} ShiftOut(x: nat, width: nat, k: nat)
    ensures x / Pow2(k) >= 0
    ensures BitsOf(x, width + k) == BitsOf(x / Pow2(k), width) + BitsOf(x, k)
  {
    QuotientLess(x, Pow2(k), 0);
    if k > 0 {
      ShiftOut(x / 2, width, k - 1);
      HalfDivMod(x, Pow2(k - 1));
      assert BitsOf(x / Pow2(k), width) + BitsOf(x, k)
          == (BitsOf(x / Pow2(k), width) + BitsOf(x / 2, k - 1)) + [x % 2];
    } else {
      assert BitsOf(x, width) + [] == BitsOf(x, width);
    }
  }

  // ---------------------------------------------------------------------------------------------------------------
  // The encoding

  /** The bits of a row of bytes. */
  function ByteBits(data: Bytes): (bits: seq<int>) {
    if data == [] then [] else BitsOf(data[0], 8) + ByteBits(data[1..])
  }

  /** The bits that are encoded: those of the data and enough zeros to fill up a symbol. */
  function PaddedBits(data: Bytes): (bits: seq<int>) {
    ByteBits(data) + [0, 0, 0, 0]
  }

  /** A symbol's value, as a character of the alphabet. */
  function SymbolChar(v: int): char
    requires 0 <= v < 32
  {
    ALPHABET[v]
  }

  /** One symbol for every five bits; what is left over is dropped. */
  function Symbols(bits: seq<int>): (text: string)
    requires AllBits(bits)
  {
    if |bits| < 5 then ""
    else
      BitsOfNumber(bits[..5]);
      [SymbolChar(Number(bits[..5]))] + Symbols(bits[5..])
  }

  /** Characters written for `n` bytes: whole quanta of eight for every five bytes begun. */
  function EncodedLength(n: nat): nat {
    8 * ((n + 4) / 5)
  }

  function Padding(n: nat): (text: string)
    ensures |text| == n
  {
    if n == 0 then "" else Padding(n - 1) + "="
  }

  function Encode(data: Bytes): (text: string)
    ensures |text| == EncodedLength(|data|)
  {
    PaddedBitsAreBits(data);
    SymbolCount(data);
    var symbols := Symbols(PaddedBits(data));
    symbols + Padding(EncodedLength(|data|) - |symbols|)
  }

  lemma {:induction false} ByteBitsAreBits(data: Bytes)
    ensures |ByteBits(data)| == 8 * |data| && AllBits(ByteBits(data))
  {
    if data != [] {
      BitsOfAreBits(data[0], 8);
      ByteBitsAreBits(data[1..]);
    }
  }

  lemma PaddedBitsAreBits(data: Bytes)
    ensures |PaddedBits(data)| == 8 * |data| + 4 && AllBits(PaddedBits(data))
  {
    ByteBitsAreBits(data);
  }

  lemma {:induction false} SymbolsLength(bits: seq<int>)
    requires AllBits(bits)
    ensures 5 * |Symbols(bits)| <= |bits| < 5 * |Symbols(bits)| + 5
  {
    if |bits| >= 5 {
      SymbolsLength(bits[5..]);
    }
  }

  /** The padding completes the last quantum of eight and no more. */
  lemma SymbolCount(data: Bytes)
    ensures AllBits(PaddedBits(data))
    ensures |Symbols(PaddedBits(data))| <= EncodedLength(|data|) < |Symbols(PaddedBits(data))| + 8
  {
    PaddedBitsAreBits(data);
    SymbolsLength(PaddedBits(data));
    WholeQuanta(|data|, |Symbols(PaddedBits(data))|);
  }

  lemma WholeQuanta(n: nat, total: nat)
    requires 5 * total <= 8 * n + 4 < 5 * total + 5
    ensures total <= EncodedLength(n) < total + 8
  {
    assert n == 5 * (n / 5) + n % 5 && n + 4 == 5 * ((n + 4) / 5) + (n + 4) % 5;
  }

  // ---------------------------------------------------------------------------------------------------------------
  // The encoder's loop

  /**
   The encoder between two symbols: `rest` are the bits not yet written, of which the first `bitsLeft` are the low bits
   of the buffer and the others are still in the data.
   */
  ghost predicate Between(data: Bytes, buffer: u32, bitsLeft: int, next: int, rest: seq<int>) {
    && AllBits(rest)
    && 0 <= bitsLeft <= 8 && 1 <= next <= |data|
    && if |rest| < 5 then bitsLeft == 0 && next == |data|
       else Holds(buffer, bitsLeft, rest) && rest[bitsLeft..] == PaddedBits(data[next..])
  }

  ghost predicate Holds(buffer: u32, bitsLeft: int, rest: seq<int>) {
    0 <= bitsLeft <= |rest| && BitsOf(buffer, bitsLeft) == rest[..bitsLeft]
  }

  lemma FirstByte(data: Bytes)
    requires |data| > 0
    ensures Between(data, data[0], 8, 1, PaddedBits(data))
  {
    PaddedBitsAreBits(data);
    var rest := PaddedBits(data);
    assert rest == BitsOf(data[0], 8) + PaddedBits(data[1..]);
    assert rest[..8] == BitsOf(data[0], 8) && rest[8..] == PaddedBits(data[1..]);
  }

  lemma MoreToWrite(data: Bytes, buffer: u32, bitsLeft: int, next: int, rest: seq<int>)
    requires Between(data, buffer, bitsLeft, next, rest)
    ensures bitsLeft > 0 || next < |data| <==> |rest| >= 5
  {
    PaddedBitsAreBits(data[next..]);
  }

  /** `buffer <<= 8; buffer |= data[next++]; bitsLeft += 8` on a 32-bit word. */
  method LoadByte(data: Bytes, buffer0: u32, bitsLeft0: int, next0: int, ghost rest: seq<int>)
    returns (buffer: u32, bitsLeft: int, next: int)
    requires 0 <= next0 < |data| && bitsLeft0 <= 4
    requires Holds(buffer0, bitsLeft0, rest) && rest[bitsLeft0..] == PaddedBits(data[next0..])
    ensures bitsLeft == bitsLeft0 + 8 && next == next0 + 1
    ensures Holds(buffer, bitsLeft, rest) && rest[bitsLeft..] == PaddedBits(data[next..])
  {
    WordWithByte(buffer0, data[next0], bitsLeft0);
    NextByte(data, next0, rest, bitsLeft0);
    var shifted: u32 := buffer0 * 0x100 % 0x1_0000_0000;
    buffer, bitsLeft, next := shifted + data[next0], bitsLeft0 + 8, next0 + 1;
  }

  /** The word has room for the byte, and the low bits are those before and the byte's. */
  lemma WordWithByte(word: u32, b: u8, width: nat)
    requires width <= 24
    ensures word * 0x100 % 0x1_0000_0000 + b < 0x1_0000_0000
    ensures BitsOf(word * 0x100 % 0x1_0000_0000 + b, width + 8) == BitsOf(word, width) + BitsOf(b, 8)
  {
    SmallPowers();
    RoomForByte(word);
    ShiftInWord(word, b, width, 8);
  }

  lemma RoomForByte(word: u32)
    ensures 0 <= word * 0x100 % 0x1_0000_0000 <= 0x1_0000_0000 - 0x100
  {
  }

  /** The byte to be loaded follows the bits that are loaded. */
  lemma NextByte(data: Bytes, next: int, rest: seq<int>, bitsLeft: int)
    requires 0 <= next < |data| && 0 <= bitsLeft <= |rest| && rest[bitsLeft..] == PaddedBits(data[next..])
    ensures bitsLeft + 8 <= |rest| && rest[..bitsLeft + 8] == rest[..bitsLeft] + BitsOf(data[next], 8)
    ensures rest[bitsLeft + 8..] == PaddedBits(data[next + 1..])
  {
    var tail, d := data[next..], BitsOf(data[next], 8);
    assert tail[0] == data[next] && tail[1..] == data[next + 1..];
    assert PaddedBits(tail) == d + PaddedBits(data[next + 1..]);
    assert rest == rest[..bitsLeft] + (d + PaddedBits(data[next + 1..]));
  }

  /** `buffer <<= pad; bitsLeft += pad` on a 32-bit word, when all bytes are loaded. */
  method LoadPadding(buffer0: u32, bitsLeft0: int, ghost rest: seq<int>) returns (buffer: u32, bitsLeft: int)
    requires 0 < bitsLeft0 < 5 && Holds(buffer0, bitsLeft0, rest) && rest[bitsLeft0..] == [0, 0, 0, 0]
    ensures bitsLeft == 5 && Holds(buffer, bitsLeft, rest)
  {
    var pad := 5 - bitsLeft0;
    MulNonNegative(buffer0, Pow2(pad));
    buffer := buffer0 * Pow2(pad) % 0x1_0000_0000;
    bitsLeft := bitsLeft0 + pad;
    ShiftInWord(buffer0, 0, bitsLeft0, pad);
    ZeroBits(pad);
    assert rest[..5] == rest[..bitsLeft0] + rest[bitsLeft0..][..pad];
  }

  lemma {:induction false} ZeroBits(k: nat)
    requires k <= 4
    ensures BitsOf(0, k) == [0, 0, 0, 0][..k]
  {
    if k > 0 {
      ZeroBits(k - 1);
    }
  }

  /**
   `0x1F & (buffer >> (bitsLeft - 5)); bitsLeft -= 5`. Shifting a signed word and masking five bits at most seven places
   up gives the same bits as for the unsigned word used here.
   */
  method TopFive(buffer: u32, bitsLeft0: int, ghost rest: seq<int>) returns (index: int, bitsLeft: int)
    requires bitsLeft0 >= 5 && Holds(buffer, bitsLeft0, rest)
    ensures 0 <= index < 32 && index == Number(rest[..5])
    ensures bitsLeft == bitsLeft0 - 5 && Holds(buffer, bitsLeft, rest[5..])
  {
    bitsLeft := bitsLeft0 - 5;
    index := buffer / Pow2(bitsLeft) % 32;
    ShiftOut(buffer, 5, bitsLeft);
    SmallPowers();
    NumberOfBits(buffer / Pow2(bitsLeft), 5);
    ghost var top := BitsOf(buffer / Pow2(bitsLeft), 5);
    assert rest[..bitsLeft0] == top + BitsOf(buffer, bitsLeft);
    assert rest[..5] == rest[..bitsLeft0][..5] == top;
    assert rest[5..][..bitsLeft] == rest[..bitsLeft0][5..] == BitsOf(buffer, bitsLeft);
  }

  /** One round of the encoder: load a byte or pad if less than five bits are left, then take the top five. */
  method NextSymbol(data: Bytes, buffer0: u32, bitsLeft0: int, next0: int, ghost rest: seq<int>)
    returns (index: int, buffer: u32, bitsLeft: int, next: int)
    requires Between(data, buffer0, bitsLeft0, next0, rest) && |rest| >= 5
    ensures 0 <= index < 32 && index == Number(rest[..5])
    ensures Between(data, buffer, bitsLeft, next, rest[5..])
  {
    buffer, bitsLeft, next := buffer0, bitsLeft0, next0;
    MoreToWrite(data, buffer, bitsLeft, next, rest);
    if bitsLeft < 5 {
      if next < |data| {
        buffer, bitsLeft, next := LoadByte(data, buffer, bitsLeft, next, rest);
      } else {
        assert PaddedBits(data[next..]) == [0, 0, 0, 0];
        buffer, bitsLeft := LoadPadding(buffer, bitsLeft, rest);
      }
    }
    ghost var left := bitsLeft;
    index, bitsLeft := TopFive(buffer, bitsLeft, rest);
    assert rest[5..][bitsLeft..] == rest[left..];
    PaddedBitsAreBits(data[next..]);
  }

  /**
   Writes symbols until the data or the room is used up; `quantum` of eight characters are left of the last quantum.
   */
  method WriteSymbols(data: Bytes, result: array<char>, bufSize: int, ghost symbols: string)
    returns (count: nat, quantum: int, ghost quanta: nat)
    requires |data| > 0 && bufSize <= result.Length
    requires AllBits(PaddedBits(data)) && symbols == Symbols(PaddedBits(data))
    modifies result
    ensures count == if bufSize <= 0 then 0 else if bufSize < |symbols| then bufSize else |symbols|
    ensures 1 <= quantum <= 8 && count + quantum == 8 * quanta
    ensures result[..count] == symbols[..count]
    ensures forall k :: count <= k < result.Length ==> result[k] == old(result[k])
  {
    count, quantum, quanta := 0, 8, 1;
    var buffer: u32, next, bitsLeft := data[0], 1, 8;
    ghost var rest := PaddedBits(data);
    FirstByte(data);
    MoreToWrite(data, buffer, bitsLeft, next, rest);
    while count < bufSize && (bitsLeft > 0 || next < |data|)
      invariant count <= |symbols| && (0 < count ==> count <= bufSize)
      invariant bitsLeft > 0 || next < |data| <==> |rest| >= 5
      invariant Between(data, buffer, bitsLeft, next, rest)
      invariant symbols[count..] == Symbols(rest)
      invariant 1 <= quantum <= 8 && count + quantum == 8 * quanta
      invariant result[..count] == symbols[..count]
      invariant forall k :: count <= k < result.Length ==> result[k] == old(result[k])
      decreases |rest|
    {
      var index;
      index, buffer, bitsLeft, next := NextSymbol(data, buffer, bitsLeft, next, rest);
      assert symbols[count] == SymbolChar(index) && symbols[count + 1..] == symbols[count..][1..];
      rest := rest[5..];
      MoreToWrite(data, buffer, bitsLeft, next, rest);
      result[count] := SymbolChar(index);
      count := count + 1;
      quantum := quantum - 1;
      if quantum == 0 {
        quantum, quanta := 8, quanta + 1;
      }
    }
  }

  /** Completes a quantum with padding characters as far as there is room. */
  method WritePadding(result: array<char>, bufSize: int, count0: nat, quantum0: int) returns (count: nat)
    requires 0 <= quantum0 && bufSize <= result.Length && count0 <= result.Length
    modifies result
    ensures count == if bufSize <= count0 then count0
                     else if bufSize < count0 + quantum0 then bufSize else count0 + quantum0
    ensures result[..count] == old(result[..count0]) + Padding(count - count0)
    ensures forall k :: count <= k < result.Length ==> result[k] == old(result[k])
  {
    count := count0;
    var quantum := quantum0;
    while quantum > 0 && count < bufSize
      invariant 0 <= quantum && count + quantum == count0 + quantum0 && count0 <= count <= result.Length
      invariant count0 < count ==> count <= bufSize
      invariant result[..count] == old(result[..count0]) + Padding(count - count0)
      invariant forall k :: count <= k < result.Length ==> result[k] == old(result[k])
    {
      result[count] := '=';
      count := count + 1;
      quantum := quantum - 1;
    }
  }

  /** Writes the encoding of the first `length` bytes and a terminator, and nothing else, if there is room for both. */
  method Base32Encode(data: Bytes, length: int, result: array<char>, bufSize: int) returns (r: Result<()>)
    requires length <= |data| && bufSize <= result.Length
    modifies result
    ensures r.Ok? <==> 0 <= length <= MAX_INPUT && EncodedLength(length) < bufSize
    ensures r.Err? ==> r.error == InvalidLength
    ensures r.Ok? ==> var text := Encode(data[..length]);
                      && result[..|text|] == text && result[|text|] == '\0'
                      && forall k :: |text| < k < result.Length ==> result[k] == old(result[k])
  {
    if length < 0 || length > MAX_INPUT {
      return Err(InvalidLength);
    }
    var count := WriteEncoding(data[..length], result, bufSize);
    if count >= bufSize {
      return Err(InvalidLength);
    }
    ghost var text := Encode(data[..length]);
    result[count] := '\0';
    assert result[..count] == text;
    return Ok(());
  }

  /** Symbols and padding of the data, as far as there is room. */
  method WriteEncoding(data: Bytes, result: array<char>, bufSize: int) returns (count: nat)
    requires bufSize <= result.Length
    modifies result
    ensures count < bufSize <==> EncodedLength(|data|) < bufSize
    ensures count < bufSize ==> count == EncodedLength(|data|) && result[..count] == Encode(data)
    ensures count <= result.Length && forall k :: count <= k < result.Length ==> result[k] == old(result[k])
  {
    SymbolCount(data);
    ghost var symbols := Symbols(PaddedBits(data));
    var quantum := 8;
    count := 0;
    if |data| > 0 {
      ghost var quanta;
      count, quantum, quanta := WriteSymbols(data, result, bufSize, symbols);
      LastQuantum(|data|, |symbols|, quantum, quanta);
      if quantum != 8 {
        count := WritePadding(result, bufSize, count, quantum);
      }
    }
  }

  lemma LastQuantum(n: nat, total: nat, quantum: int, quanta: nat)
    requires total <= EncodedLength(n) < total + 8 && 1 <= quantum <= 8
    ensures total + quantum == 8 * quanta ==> EncodedLength(n) == if quantum == 8 then total else total + quantum
  {
  }

  // ---------------------------------------------------------------------------------------------------------------
  // Decoding

  /** The value of a character of the alphabet, which leaves out I, O, W and Z. */
  function SymbolValue(c: char): (v: Option<int>)
    ensures v.Some? ==> 0 <= v.value < 32
  {
    var x := c as int;
    if '0' <= c <= '9' then Some(x - '0' as int)
    else if 'A' <= c <= 'H' then Some(x - 'A' as int + 10)
    else if 'J' <= c <= 'N' then Some(x - 'J' as int + 18)
    else if 'P' <= c <= 'V' then Some(x - 'P' as int + 23)
    else if 'X' <= c <= 'Y' then Some(x - 'X' as int + 30)
    else None
  }

  /** The alphabet in runs of consecutive letters. */
  lemma AlphabetRuns(v: int)
    requires 0 <= v < 32
    ensures SymbolChar(v) as int ==
            if v < 10 then v + '0' as int
            else if v < 18 then v - 10 + 'A' as int
            else if v < 23 then v - 18 + 'J' as int
            else if v < 30 then v - 23 + 'P' as int
            else v - 30 + 'X' as int
  {
    var digits, ah, jn, pv, xy := "0123456789", "ABCDEFGH", "JKLMN", "PQRSTUV", "XY";
    assert ALPHABET == digits + ah + jn + pv + xy;
    assert ALPHABET[v] == if v < 10 then digits[v] else if v < 18 then ah[v - 10] else if v < 23 then jn[v - 18]
                          else if v < 30 then pv[v - 23] else xy[v - 30];
  }

  lemma SymbolRoundTrip(v: int)
    requires 0 <= v < 32
    ensures SymbolValue(SymbolChar(v)) == Some(v)
  {
    AlphabetRuns(v);
  }

  /** The bits of the symbols up to the padding. */
  function SymbolBits(text: string): (bits: seq<int>) {
    if text == "" || SymbolValue(text[0]).None? then []
    else BitsOf(SymbolValue(text[0]).value, 5) + SymbolBits(text[1..])
  }

  /** Whole bytes formed by bits; what is left over is dropped. */
  function BytesOf(bits: seq<int>): (data: Bytes)
    requires AllBits(bits)
  {
    if |bits| < 8 then []
    else
      BitsOfNumber(bits[..8]);
      SmallPowers();
      [Number(bits[..8])] + BytesOf(bits[8..])
  }

  function Decode(text: string): (data: Bytes) {
    SymbolBitsAreBits(text);
    BytesOf(SymbolBits(text))
  }

  lemma {:induction false} SymbolBitsAreBits(text: string)
    ensures AllBits(SymbolBits(text))
  {
    if text != "" && SymbolValue(text[0]).Some? {
      BitsOfAreBits(SymbolValue(text[0]).value, 5);
      SymbolBitsAreBits(text[1..]);
    }
  }

  lemma SymbolBitsCons(v: int, tail: string)
    requires 0 <= v < 32
    ensures SymbolBits([SymbolChar(v)] + tail) == BitsOf(v, 5) + SymbolBits(tail)
  {
    SymbolRoundTrip(v);
    assert ([SymbolChar(v)] + tail)[1..] == tail;
  }

  lemma FirstSymbol(bits: seq<int>, padding: string)
    requires AllBits(bits) && |bits| >= 5
    ensures SymbolBits(Symbols(bits) + padding) == bits[..5] + SymbolBits(Symbols(bits[5..]) + padding)
  {
    var v := Number(bits[..5]);
    FirstFive(bits);
    Behind(Symbols(bits), SymbolChar(v), Symbols(bits[5..]), padding);
    SymbolBitsCons(v, Symbols(bits[5..]) + padding);
  }

  lemma FirstFive(bits: seq<int>)
    requires AllBits(bits) && |bits| >= 5
    ensures var v := Number(bits[..5]);
            0 <= v < 32 && BitsOf(v, 5) == bits[..5] && Symbols(bits) == [SymbolChar(v)] + Symbols(bits[5..])
  {
    BitsOfNumber(bits[..5]);
    SmallPowers();
  }

  lemma Behind(text: string, c: char, tail: string, padding: string)
    requires text == [c] + tail
    ensures text + padding == [c] + (tail + padding)
  {
  }

  /** Reading symbols gives the bits back, but for those that did not fill a symbol. */
  lemma {:induction false} SymbolBitsRoundTrip(bits: seq<int>, padding: string) returns (dropped: seq<int>)
    requires AllBits(bits) && (padding == "" || padding[0] == '=')
    ensures |dropped| < 5 && bits == SymbolBits(Symbols(bits) + padding) + dropped
  {
    if |bits| < 5 {
      assert Symbols(bits) + padding == padding;
      dropped := bits;
    } else {
      dropped := SymbolBitsRoundTrip(bits[5..], padding);
      FirstSymbol(bits, padding);
      InFront(bits, SymbolBits(Symbols(bits[5..]) + padding), dropped);
    }
  }

  lemma InFront(bits: seq<int>, read: seq<int>, dropped: seq<int>)
    requires |bits| >= 5 && bits[5..] == read + dropped
    ensures bits == (bits[..5] + read) + dropped
  {
    assert bits == bits[..5] + bits[5..];
  }

  lemma ByteBitsCons(data: Bytes, rest: seq<int>)
    requires data != []
    ensures (ByteBits(data) + rest)[..8] == BitsOf(data[0], 8)
    ensures (ByteBits(data) + rest)[8..] == ByteBits(data[1..]) + rest
  {
    assert ByteBits(data) + rest == BitsOf(data[0], 8) + (ByteBits(data[1..]) + rest);
  }

  lemma ByteNumber(x: u8)
    ensures Number(BitsOf(x, 8)) == x
  {
    SmallPowers();
    NumberOfBits(x, 8);
  }

  lemma {:induction false} BytesRoundTrip(data: Bytes, rest: seq<int>)
    requires |rest| < 8 && AllBits(rest)
    ensures AllBits(ByteBits(data) + rest) && BytesOf(ByteBits(data) + rest) == data
  {
    ByteBitsAreBits(data);
    if data == [] {
      assert ByteBits(data) + rest == rest;
    } else {
      ByteBitsCons(data, rest);
      ByteNumber(data[0]);
      BytesRoundTrip(data[1..], rest);
    }
  }

  lemma {:induction false} PaddingStart(n: nat)
    ensures n > 0 ==> Padding(n)[0] == '='
  {
    if n > 1 {
      PaddingStart(n - 1);
    }
  }

  /** Decoding an encoding gives the data back. */
  lemma RoundTrip(data: Bytes)
    ensures Decode(Encode(data)) == data
  {
    PaddedBitsAreBits(data);
    SymbolCount(data);
    var bits, text := PaddedBits(data), Encode(data);
    var padding := Padding(EncodedLength(|data|) - |Symbols(bits)|);
    PaddingStart(|padding|);
    var dropped := SymbolBitsRoundTrip(bits, padding);
    ByteBitsAreBits(data);
    SymbolBitsAreBits(text);
    BytesBack(data, SymbolBits(text), dropped);
  }

  /** Whole bytes come back as soon as no more than the padding bits are cut off. */
  lemma BytesBack(data: Bytes, read: seq<int>, dropped: seq<int>)
    requires AllBits(read) && |dropped| < 5 && PaddedBits(data) == read + dropped
    ensures BytesOf(read) == data
  {
    ByteBitsAreBits(data);
    var rest := read[8 * |data|..];
    assert read[..8 * |data|] == PaddedBits(data)[..8 * |data|] == ByteBits(data);
    BytesRoundTrip(data, rest);
    assert read == ByteBits(data) + rest;
  }

  /** Different data never encode to the same text. */
  lemma EncodeInjective(a: Bytes, b: Bytes)
    requires Encode(a) == Encode(b)
    ensures a == b
  {
    RoundTrip(a);
    RoundTrip(b);
  }

  // ---------------------------------------------------------------------------------------------------------------
  // The form of the text, as in section 6 of RFC 4648 (the alphabet is another one)

  /** The number of padding characters for each length of the last group. */
  function PaddingCount(n: nat): nat {
    [0, 6, 4, 3, 1][n % 5]
  }

  lemma PaddingTable(n: nat, total: nat)
    requires 5 * total <= 8 * n + 4 < 5 * total + 5
    ensures EncodedLength(n) == total + PaddingCount(n)
  {
    assert n == 5 * (n / 5) + n % 5 && n + 4 == 5 * ((n + 4) / 5) + (n + 4) % 5;
  }

  lemma {:induction false} NoPaddingInSymbols(bits: seq<int>)
    requires AllBits(bits)
    ensures '=' !in Symbols(bits)
  {
    if |bits| >= 5 {
      BitsOfNumber(bits[..5]);
      AlphabetRuns(Number(bits[..5]));
      NoPaddingInSymbols(bits[5..]);
    }
  }

  /** Symbols of the alphabet, and behind them as many padding characters as the last group of bytes requires. */
  lemma PaddedAsRequired(data: Bytes) returns (symbols: string)
    ensures Encode(data) == symbols + Padding(PaddingCount(|data|)) && '=' !in symbols
    ensures |symbols| + PaddingCount(|data|) == 8 * ((|data| + 4) / 5)
  {
    PaddedBitsAreBits(data);
    symbols := Symbols(PaddedBits(data));
    SymbolsLength(PaddedBits(data));
    PaddingTable(|data|, |symbols|);
    NoPaddingInSymbols(PaddedBits(data));
  }

  lemma {:induction false} ByteBitsConcat(a: Bytes, b: Bytes)
    ensures ByteBits(a + b) == ByteBits(a) + ByteBits(b)
  {
    if a == [] {
      assert a + b == b;
    } else {
      assert (a + b)[1..] == a[1..] + b;
      ByteBitsConcat(a[1..], b);
    }
  }

  lemma {:induction false} SymbolsConcat(x: seq<int>, y: seq<int>)
    requires AllBits(x) && AllBits(y) && |x| % 5 == 0
    ensures Symbols(x + y) == Symbols(x) + Symbols(y)
  {
    if x == [] {
      assert x + y == y;
    } else {
      assert (x + y)[..5] == x[..5] && (x + y)[5..] == x[5..] + y;
      SymbolsConcat(x[5..], y);
    }
  }

  /** Too few bits behind whole symbols make no symbol. */
  lemma RestDropped(bits: seq<int>, rest: seq<int>)
    requires AllBits(bits) && AllBits(rest) && |bits| % 5 == 0 && |rest| < 5
    ensures AllBits(bits + rest) && Symbols(bits + rest) == Symbols(bits)
  {
    SymbolsConcat(bits, rest);
    assert Symbols(bits) + "" == Symbols(bits);
  }

  /** Each group of five bytes is encoded for itself. */
  lemma Grouping(a: Bytes, b: Bytes)
    requires |a| % 5 == 0
    ensures Encode(a + b) == Encode(a) + Encode(b)
  {
    PaddedBitsAreBits(a);
    PaddedBitsAreBits(b);
    PaddedBitsAreBits(a + b);
    GroupedSymbols(a, b);
    GroupedLengths(a, b);
    EncodeParts(a + b, a, b);
  }

  lemma GroupedSymbols(a: Bytes, b: Bytes)
    requires |a| % 5 == 0
    requires AllBits(PaddedBits(a)) && AllBits(PaddedBits(b)) && AllBits(PaddedBits(a + b))
    ensures Symbols(PaddedBits(a + b)) == Symbols(PaddedBits(a)) + Symbols(PaddedBits(b))
  {
    hide PaddedBits, ByteBits, Symbols;
    var bits, rest := ByteBits(a), PaddedBits(b);
    PaddedConcat(a, b);
    ByteBitsAreBits(a);
    EightTimes(|a|);
    SymbolsConcat(bits, rest);
    SymbolsWithoutPadding(a);
  }

  lemma PaddedConcat(a: Bytes, b: Bytes)
    ensures PaddedBits(a + b) == ByteBits(a) + PaddedBits(b)
  {
    ByteBitsConcat(a, b);
  }

  /** The padding bits of whole groups make no symbol. */
  lemma SymbolsWithoutPadding(data: Bytes)
    requires |data| % 5 == 0
    ensures AllBits(PaddedBits(data)) && AllBits(ByteBits(data)) && Symbols(PaddedBits(data)) == Symbols(ByteBits(data))
  {
    var bits, padded := ByteBits(data), PaddedBits(data);
    ByteBitsAreBits(data);
    PaddedBitsAreBits(data);
    var rest := padded[|bits|..];
    assert padded == bits + rest;
    EightTimes(|data|);
    RestDropped(bits, rest);
  }

  lemma EightTimes(n: nat)
    requires n % 5 == 0
    ensures 8 * n % 5 == 0
  {
    DivModUnique(8 * n, 5, 8 * (n / 5), 0);
  }

  /** Encodings are put together as their symbols are, if the first part needs no padding. */
  lemma EncodeParts(ab: Bytes, a: Bytes, b: Bytes)
    requires AllBits(PaddedBits(a)) && AllBits(PaddedBits(b)) && AllBits(PaddedBits(ab))
    requires Symbols(PaddedBits(ab)) == Symbols(PaddedBits(a)) + Symbols(PaddedBits(b))
    requires EncodedLength(|ab|) == EncodedLength(|a|) + EncodedLength(|b|)
    requires |Symbols(PaddedBits(a))| == EncodedLength(|a|)
    ensures Encode(ab) == Encode(a) + Encode(b)
  {
  }

  lemma GroupedLengths(a: Bytes, b: Bytes)
    requires |a| % 5 == 0 && AllBits(PaddedBits(a))
    ensures EncodedLength(|a + b|) == EncodedLength(|a|) + EncodedLength(|b|)
    ensures |Symbols(PaddedBits(a))| == EncodedLength(|a|)
  {
    PaddedBitsAreBits(a);
    SymbolsLength(PaddedBits(a));
    PaddingTable(|a|, |Symbols(PaddedBits(a))|);
    assert |a + b| + 4 == 5 * (|a| / 5) + (|b| + 4);
  }

  // ---------------------------------------------------------------------------------------------------------------
  // Every text of whole quanta is an encoding

  predicate OnlySymbols(text: string) {
    forall i :: 0 <= i < |text| ==> SymbolValue(text[i]).Some?
  }

  lemma CharOfValue(c: char)
    requires SymbolValue(c).Some?
    ensures SymbolChar(SymbolValue(c).value) == c
  {
    AlphabetRuns(SymbolValue(c).value);
  }

  lemma {:induction false} SymbolsOfSymbolBits(text: string)
    requires OnlySymbols(text)
    ensures AllBits(SymbolBits(text)) && |SymbolBits(text)| == 5 * |text| && Symbols(SymbolBits(text)) == text
  {
    SymbolBitsAreBits(text);
    if text != "" {
      SymbolsOfSymbolBits(text[1..]);
      var v := SymbolValue(text[0]).value;
      CharOfValue(text[0]);
      FiveBits(v);
      assert SymbolBits(text)[..5] == BitsOf(v, 5) && SymbolBits(text)[5..] == SymbolBits(text[1..]);
      FirstFive(SymbolBits(text));
      assert text == [text[0]] + text[1..];
    }
  }

  /** A small number is recovered from its bits. */
  lemma BitsBack(v: nat, width: nat)
    requires v < Pow2(width)
    ensures Number(BitsOf(v, width)) == v
  {
    NumberOfBits(v, width);
    DivModUnique(v, Pow2(width), 0, v);
  }

  lemma FiveBits(v: int)
    requires 0 <= v < 32
    ensures Number(BitsOf(v, 5)) == v
  {
    SmallPowers();
    BitsBack(v, 5);
  }

  lemma {:induction false} ByteBitsOfBytes(bits: seq<int>)
    requires AllBits(bits) && |bits| % 8 == 0
    ensures ByteBits(BytesOf(bits)) == bits
  {
    if bits != [] {
      var data := BytesOf(bits);
      BitsOfNumber(bits[..8]);
      ByteBitsOfBytes(bits[8..]);
      assert data[0] == Number(bits[..8]) && data[1..] == BytesOf(bits[8..]);
      assert bits == bits[..8] + bits[8..];
    }
  }

  /** Decoding a text of whole quanta of symbols and encoding again gives the text. */
  lemma EncodeDecode(text: string)
    requires OnlySymbols(text) && |text| % 8 == 0
    ensures Encode(Decode(text)) == text && 8 * |Decode(text)| == 5 * |text|
  {
    var bits, data := SymbolBits(text), Decode(text);
    SymbolsOfSymbolBits(text);
    FiveTimes(|text|);
    ByteBitsOfBytes(bits);
    ByteBitsAreBits(data);
    WholeText(|data|, |text|);
    SymbolsWithoutPadding(data);
    EncodeWhole(data, text);
  }

  lemma FiveTimes(k: nat)
    requires k % 8 == 0
    ensures 5 * k % 8 == 0
  {
    DivModUnique(5 * k, 8, 5 * (k / 8), 0);
  }

  lemma WholeText(n: nat, k: nat)
    requires 8 * n == 5 * k && k % 8 == 0
    ensures EncodedLength(n) == k && n % 5 == 0
  {
  }

  lemma EncodeWhole(data: Bytes, text: string)
    requires AllBits(PaddedBits(data)) && Symbols(PaddedBits(data)) == text && |text| == EncodedLength(|data|)
    ensures Encode(data) == text
  {
  }

  // ---------------------------------------------------------------------------------------------------------------
  // The encoding as a number in base 32

  lemma {:induction false} BytePower(n: nat)
    ensures Wire.Pow256(n) == Pow2(8 * n)
  {
    if n > 0 {
      BytePower(n - 1);
      SmallPowers();
      Pow2Sum(8 * (n - 1), 8);
    }
  }

  /** The bits of bytes are those of the number that the bytes form. */
  lemma {:induction false} BitsOfBytes(data: Bytes)
    ensures Wire.BigEndian(data) < Pow2(8 * |data|)
    ensures ByteBits(data) == BitsOf(Wire.BigEndian(data), 8 * |data|)
  {
    Wire.BigEndianBound(data);
    BytePower(|data|);
    if data != [] {
      var first, rest := data[0], data[1..];
      BitsOfBytes(rest);
      BytePower(|rest|);
      assert data == [first] + rest;
      Wire.BigEndianConcat([first], rest);
      assert Wire.BigEndian([first]) == first;
      ShiftIn(first, Wire.BigEndian(rest), 8, 8 * |rest|);
    }
  }

  /** The symbols of the bits of a number are its digits in base 32. */
  lemma {:induction false} DigitsInBase32(x: nat, n: nat, k: nat)
    requires k < n
    ensures AllBits(BitsOf(x, 5 * n)) && |Symbols(BitsOf(x, 5 * n))| == n
    ensures Symbols(BitsOf(x, 5 * n))[k] == "0123456789ABCDEFGHJKLMNPQRSTUVXY"[x / Pow2(5 * (n - 1 - k)) % 32]
  {
    var low := 5 * (n - 1);
    var high := x / Pow2(low);
    BitsOfAreBits(x, 5 * n);
    BitsOfAreBits(x, low);
    SymbolsLength(BitsOf(x, 5 * n));
    ShiftOut(x, 5, low);
    assert BitsOf(x, 5 * n)[..5] == BitsOf(high, 5) && BitsOf(x, 5 * n)[5..] == BitsOf(x, low);
    if k == 0 {
      NumberOfBits(high, 5);
      SmallPowers();
    } else {
      DigitsInBase32(x, n - 1, k - 1);
    }
  }

  /** Whole groups of bytes are encoded as the number that they form, in base 32 with leading zeros. */
  lemma EncodedNumber(data: Bytes, k: nat)
    requires |data| % 5 == 0 && k < EncodedLength(|data|)
    ensures 5 * EncodedLength(|data|) == 8 * |data|
    ensures Encode(data)[k] == "0123456789ABCDEFGHJKLMNPQRSTUVXY"
                               [Wire.BigEndian(data) / Pow2(5 * (EncodedLength(|data|) - 1 - k)) % 32]
  {
    var n := EncodedLength(|data|);
    assert n == 8 * (|data| / 5);
    SymbolsWithoutPadding(data);
    BitsOfBytes(data);
    DigitsInBase32(Wire.BigEndian(data), n, k);
    EncodeWhole(data, Symbols(PaddedBits(data)));
  }
}
