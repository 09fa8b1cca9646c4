/** `is_printable_ascii` and `parse_normal_tx_data`: how the data of a normal transaction is displayed. */
module DataField {
  import opened Buffers
  import opened Hex
  import opened Machine
  import opened ParsedTransaction

  const LENGTH_NORMAL_TX_DATA_MAX := 64

  /** Two characters per byte and a terminator. */
  const STRING_LENGTH_NORMAL_TX_DATA_MAX := 129

  const CASHLINK_MAGIC_NUMBER: Bytes := [0x00, 0x82, 0x80, 0x92, 0x87]

  predicate Printable(data: Bytes) {
    forall i :: 0 <= i < |data| ==> 32 <= data[i] <= 126
  }

  /** Every byte as the character with its code. */
  function Text(data: Bytes): (s: string)
    ensures |s| == |data|
  {
    if data == [] then "" else Text(data[..|data| - 1]) + [data[|data| - 1] as char]
  }

  function BytesOfText(s: string): seq<int> {
    if s == "" then [] else BytesOfText(s[..|s| - 1]) + [s[|s| - 1] as int]
  }

  /** What the user is shown: Cashlinks by a mark, anything else as text if possible and as hex if not. */
  datatype Shown = Shown(isCashlink: bool, dataLabel: string, extraData: string)

  function Display(data: Bytes): Shown {
    if data == [] then Shown(false, "", "")
    else if data == CASHLINK_MAGIC_NUMBER then Shown(true, "", "")
    else if Printable(data) then Shown(false, "Data", Text(data))
    else Shown(false, "Data Hex", HexText(data))
  }

  /** The data that a user infers from what is shown. */
  function ReadDisplay(shown: Shown): seq<int> {
    if shown.isCashlink then CASHLINK_MAGIC_NUMBER
    else if shown.dataLabel == "" then []
    else if shown.dataLabel == "Data" then BytesOfText(shown.extraData)
    else ReadHex(shown.extraData)
  }

  lemma {:induction false} TextAt(data: Bytes, i: nat)
    requires i < |data|
    ensures Text(data)[i] as int == data[i]
  {
    if i < |data| - 1 {
      TextAt(data[..|data| - 1], i);
    }
  }

  lemma {:induction false} TextRoundTrip(data: Bytes)
    ensures BytesOfText(Text(data)) == data
    ensures Printable(data) ==> '\0' !in Text(data)
  {
    if data != [] {
      var init := data[..|data| - 1];
      TextRoundTrip(init);
      assert Text(data)[..|init|] == Text(init);
      assert data == init + [data[|data| - 1]];
    }
  }

  /** Nothing is lost: what is shown determines the data, and the data entry is shown unless its text is empty. */
  lemma DisplayLossless(data: Bytes)
    ensures ReadDisplay(Display(data)) == data
    ensures Display(data).extraData == "" <==> data == [] || data == CASHLINK_MAGIC_NUMBER
    ensures |data| <= LENGTH_NORMAL_TX_DATA_MAX ==> |Display(data).extraData| < STRING_LENGTH_NORMAL_TX_DATA_MAX
    ensures '\0' !in Display(data).extraData
  {
    TextRoundTrip(data);
    HexRoundTrip(data);
    NoTerminator(data);
  }

  lemma DisplayInjective(a: Bytes, b: Bytes)
    requires Display(a) == Display(b)
    ensures a == b
  {
    DisplayLossless(a);
    DisplayLossless(b);
  }

  method IsPrintableAscii(data: Bytes) returns (printable: bool)
    ensures printable == Printable(data)
  {
    var i := 0;
    while i < |data|
      invariant i <= |data| && Printable(data[..i])
    {
      if data[i] < 32 || data[i] > 126 {
        return false;
      }
      i := i + 1;
    }
    assert data[..i] == data;
    return true;
  }

  method ParseNormalTxData(data: Bytes, out: ParsedTx) returns (r: Result<()>, isCashlink: bool)
    modifies out`normal
    ensures r == if |data| > LENGTH_NORMAL_TX_DATA_MAX then Err(InvalidLength) else Ok(())
    ensures r.Ok? ==>
              && isCashlink == Display(data).isCashlink
              && out.normal
                 == old(out.normal).(dataLabel := Display(data).dataLabel, extraData := Display(data).extraData)
  {
    out.normal := out.normal.(dataLabel := "", extraData := "");
    isCashlink := false;
    if |data| > LENGTH_NORMAL_TX_DATA_MAX {
      return Err(InvalidLength), false;
    }
    if |data| == 0 {
      return Ok(()), false;
    }
    if |data| == 5 && data == CASHLINK_MAGIC_NUMBER {
      return Ok(()), true;
    }
    var printable := IsPrintableAscii(data);
    DisplayLossless(data);
    if !printable {
      var text := HexField(data, STRING_LENGTH_NORMAL_TX_DATA_MAX);
      out.normal := out.normal.(dataLabel := "Data Hex", extraData := text);
      return Ok(()), false;
    }
    var text := TextField(data, STRING_LENGTH_NORMAL_TX_DATA_MAX);
    out.normal := out.normal.(dataLabel := "Data", extraData := text);
    return Ok(()), false;
  }

  /** A member of the given size that `print_hex` fills. */
  method HexField(data: Bytes, size: u16) returns (text: string)
    requires data != [] && 2 * |data| < size
    ensures text == HexText(data)
  {
    var out := new char[size];
    var r := PrintHexText(data, out);
    text := CString(out[..]);
  }

  /** A member of the given size that text is copied to, with a terminator behind it. */
  method TextField(data: Bytes, size: nat) returns (text: string)
    requires |data| < size && Printable(data)
    ensures text == Text(data)
  {
    var out := new char[size];
    CopyText(data, out);
    text := CString(out[..]);
  }

  /** Copies text and a terminator to the front of the buffer. */
  method CopyText(data: Bytes, out: array<char>)
    requires |data| < out.Length && Printable(data)
    modifies out
    ensures CString(out[..]) == Text(data)
  {
    TextRoundTrip(data);
    Store(out, 0, Text(data));
    out[|data|] := '\0';
    assert out[..][..|data|] == Text(data);
    CStringOf(Text(data), out[..]);
  }
}
