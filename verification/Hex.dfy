/** `print_hex` and reading hexadecimal text back. */
module Hex {
  import opened Machine

  function HexDigit(d: int): (c: char)
    requires 0 <= d < 16
  {
    if d < 10 then (d + '0' as int) as char else (d - 10 + 'A' as int) as char
  }

  function HexValue(c: char): int {
    if '0' <= c <= '9' then c as int - '0' as int else c as int - 'A' as int + 10
  }

  function HexPair(b: u8): (text: string)
    ensures |text| == 2
  {
    [HexDigit(b / 16), HexDigit(b % 16)]
  }

  /** Two upper-case hexadecimal digits per byte. */
  function HexText(data: Bytes): (text: string)
    ensures |text| == 2 * |data|
  {
    if data == [] then "" else HexText(data[..|data| - 1]) + HexPair(data[|data| - 1])
  }

  function ReadHex(text: string): (data: seq<int>) {
    if |text| < 2 then []
    else ReadHex(text[..|text| - 2]) + [16 * HexValue(text[|text| - 2]) + HexValue(text[|text| - 1])]
  }

  lemma DigitValue(d: int)
    requires 0 <= d < 16
    ensures HexValue(HexDigit(d)) == d && HexDigit(d) != '\0'
  {
  }

  /** The two digits of a byte give the byte back. */
  lemma PairValue(b: u8)
    ensures 16 * HexValue(HexPair(b)[0]) + HexValue(HexPair(b)[1]) == b && '\0' !in HexPair(b)
  {
    DigitValue(b / 16);
    DigitValue(b % 16);
  }

  lemma ReadPair(text: string, pair: string)
    requires |pair| == 2
    ensures ReadHex(text + pair) == ReadHex(text) + [16 * HexValue(pair[0]) + HexValue(pair[1])]
  {
    assert (text + pair)[..|text|] == text;
  }

  /** Digits behind those of `init` are read as the next byte. */
  lemma ReadNext(init: Bytes, b: u8, text: string)
    requires ReadHex(HexText(init)) == init && text == HexText(init) + HexPair(b)
    ensures ReadHex(text) == init + [b]
  {
    PairValue(b);
    ReadPair(HexText(init), HexPair(b));
  }

  lemma {:induction false} HexRoundTrip(data: Bytes)
    ensures ReadHex(HexText(data)) == data
  {
    if data != [] {
      var init, b := data[..|data| - 1], data[|data| - 1];
      HexRoundTrip(init);
      ReadNext(init, b, HexText(data));
      assert data == init + [b];
    }
  }

  lemma DigitOf(d: int)
    requires 0 <= d < 16
    ensures HexDigit(d) == "0123456789ABCDEF"[d]
  {
    var low, high := "0123456789", "ABCDEF";
    assert low + high == "0123456789ABCDEF";
    assert (low + high)[d] == if d < 10 then low[d] else high[d - 10];
  }

  /** The two digits of every byte, the high one first. */
  lemma {:induction false} HexTextAt(data: Bytes, i: nat)
    requires i < |data|
    ensures HexText(data)[2 * i] == "0123456789ABCDEF"[data[i] / 16]
    ensures HexText(data)[2 * i + 1] == "0123456789ABCDEF"[data[i] % 16]
  {
    var n := |data| - 1;
    if i < n {
      HexTextAt(data[..n], i);
    } else {
      DigitOf(data[i] / 16);
      DigitOf(data[i] % 16);
    }
  }

  lemma {:induction false} NoTerminator(data: Bytes)
    ensures '\0' !in HexText(data)
  {
    if data != [] {
      NoTerminator(data[..|data| - 1]);
      PairValue(data[|data| - 1]);
    }
  }

  lemma HexTextInjective(a: Bytes, b: Bytes)
    ensures HexText(a) == HexText(b) <==> a == b
  {
    HexRoundTrip(a);
    HexRoundTrip(b);
  }

  lemma HexTextSnoc(data: Bytes, i: nat)
    requires i < |data|
    ensures HexText(data[..i + 1]) == HexText(data[..i]) + HexPair(data[i])
  {
    assert data[..i + 1][..i] == data[..i];
  }

  /** Prints a byte and a terminator. */
  method PrintByte(b: u8, out: array<char>, at: nat)
    requires at + 3 <= out.Length
    modifies out
    ensures out[..at + 2] == old(out[..at]) + HexPair(b) && out[at + 2] == '\0'
    ensures out[at + 3..] == old(out[at + 3..])
  {
    out[at], out[at + 1], out[at + 2] := HexDigit(b / 16), HexDigit(b % 16), '\0';
  }

  /**
   Prints two characters per byte and a terminator if there is room for all of them. For no bytes nothing is written,
   not even a terminator.
   */
  method PrintHex(data: Bytes, out: array<char>, outLength: u16) returns (r: Result<()>)
    requires |data| < 0x1_0000 && outLength <= out.Length
    modifies out
    ensures r == if outLength < 2 * |data| + 1 then Err(InvalidLength) else Ok(())
    ensures r.Err? || data == [] ==> out[..] == old(out[..])
    ensures r.Ok? && data != [] ==> out[..] == HexText(data) + "\0" + old(out[2 * |data| + 1..])
  {
    if outLength < 2 * |data| + 1 {
      return Err(InvalidLength);
    }
    ghost var orig := out[..];
    var i := 0;
    while i < |data|
      invariant i <= |data| && Printed(out[..], orig, data[..i])
    {
      ghost var before := out[..];
      PrintByte(data[i], out, 2 * i);
      PrintedNext(before, out[..], orig, data, i);
      i := i + 1;
    }
    assert data[..i] == data;
    return Ok(());
  }

  /** The buffer with the digits of `done` and a terminator, or as it was if nothing is done. */
  ghost predicate Printed(cells: seq<char>, orig: seq<char>, done: Bytes) {
    && |cells| == |orig| && (done == [] ==> cells == orig)
    && (done != [] ==> 2 * |done| < |orig| && cells == HexText(done) + "\0" + orig[2 * |done| + 1..])
  }

  lemma PrintedNext(before: seq<char>, cells: seq<char>, orig: seq<char>, data: Bytes, i: nat)
    requires i < |data| && 2 * i + 3 <= |orig| && Printed(before, orig, data[..i])
    requires |cells| == |before| && cells[..2 * i + 2] == before[..2 * i] + HexPair(data[i]) && cells[2 * i + 2] == '\0'
    requires cells[2 * i + 3..] == before[2 * i + 3..]
    ensures Printed(cells, orig, data[..i + 1])
  {
    HexTextSnoc(data, i);
    assert before[..2 * i] == HexText(data[..i]);
    assert before[2 * i + 3..] == orig[2 * i + 3..];
    assert cells == cells[..2 * i + 2] + [cells[2 * i + 2]] + cells[2 * i + 3..];
  }

  /** What a reader of the buffer sees afterwards if there is room. */
  method PrintHexText(data: Bytes, out: array<char>) returns (r: Result<()>)
    requires 2 * |data| < out.Length < 0x1_0000
    modifies out
    ensures r == Ok(())
    ensures CString(out[..]) == if data == [] then CString(old(out[..])) else HexText(data)
  {
    r := PrintHex(data, out, out.Length);
    if data != [] {
      NoTerminator(data);
      assert out[..][..2 * |data|] == HexText(data);
      CStringOf(HexText(data), out[..]);
    }
  }
}
