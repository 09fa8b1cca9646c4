/** `print_address`: the user-friendly form of an address, and how the address is recovered from it. */
module AddressText {
  import opened Arithmetic
  import opened Base32
  import opened Buffers
  import opened Decimal
  import opened Iban
  import opened Machine
  import Wire

  const ADDRESS_LENGTH := 44

  /** Groups of four characters, each after a space. */
  function Groups(s: string): (text: string) {
    if |s| < 4 then "" else " " + s[..4] + Groups(s[4..])
  }

  /** The characters of the groups, without the spaces. */
  function Ungroup(text: string): (s: string) {
    if |text| < 5 then "" else text[1..5] + Ungroup(text[5..])
  }

  /** "NQ", two check digits and eight groups of base32 characters. */
  function TextOf(address: Address): (text: string) {
    "NQ" + CheckDigits(Encode(address)) + Groups(Encode(address))
  }

  function BytesOfText(text: string): Bytes {
    if |text| < 4 then [] else Decode(Ungroup(text[4..]))
  }

  lemma {:induction false} GroupsRoundTrip(s: string)
    requires |s| % 4 == 0
    ensures Ungroup(Groups(s)) == s && 4 * |Groups(s)| == 5 * |s|
  {
    if |s| >= 4 {
      GroupsRoundTrip(s[4..]);
      assert Groups(s)[1..5] == s[..4] && Groups(s)[5..] == Groups(s[4..]);
      assert s == s[..4] + s[4..];
    }
  }

  /** A text of whole groups is grouped up to the next group. */
  lemma {:induction false} GroupsSnoc(s: string, group: string)
    requires |s| % 4 == 0 && |group| == 4
    ensures Groups(s + group) == Groups(s) + " " + group
  {
    if s == "" {
      assert s + group == group && group[..4] == group && group[4..] == "";
    } else {
      GroupsSnoc(s[4..], group);
      assert (s + group)[..4] == s[..4] && (s + group)[4..] == s[4..] + group;
    }
  }

  lemma EncodedAddress(address: Address)
    ensures |Encode(address)| == 32 && Convertible(Encode(address))
    ensures |TextOf(address)| == ADDRESS_LENGTH
  {
    PaddedBitsAreBits(address);
    SymbolsLength(PaddedBits(address));
    SymbolsConvertible(PaddedBits(address));
    GroupsRoundTrip(Encode(address));
  }

  lemma {:induction false} SymbolsConvertible(bits: seq<int>)
    requires AllBits(bits)
    ensures Convertible(Symbols(bits))
  {
    if |bits| >= 5 {
      BitsOfNumber(bits[..5]);
      SymbolsConvertible(bits[5..]);
      SymbolConvertible(Base32.Number(bits[..5]));
    }
  }

  lemma SymbolConvertible(v: int)
    requires 0 <= v < 32
    ensures KindOf(SymbolChar(v)) == Digit || KindOf(SymbolChar(v)) == Upper
  {
    AlphabetRuns(v);
  }

  /** The address can be recovered from its text. */
  lemma TextRoundTrip(address: Address)
    ensures BytesOfText(TextOf(address)) == address
  {
    EncodedAddress(address);
    GroupsRoundTrip(Encode(address));
    assert TextOf(address)[4..] == Groups(Encode(address));
    RoundTrip(address);
  }

  /** Comparing printed addresses is comparing addresses, and no address is printed as the empty string. */
  lemma TextInjective(a: Address, b: Address)
    ensures TextOf(a) == TextOf(b) <==> a == b
    ensures TextOf(a) != ""
  {
    TextRoundTrip(a);
    TextRoundTrip(b);
    EncodedAddress(a);
  }

  lemma {:induction false} SpacesInGroups(s: string, k: nat)
    requires 4 * k < |s| && |s| % 4 == 0
    ensures 5 * k < |Groups(s)| && Groups(s)[5 * k] == ' '
  {
    if k > 0 {
      SpacesInGroups(s[4..], k - 1);
      assert Groups(s) == (" " + s[..4]) + Groups(s[4..]);
    }
  }

  /**
   The form of an address number: 44 characters, "NQ" and two check digits, eight groups behind a space each. Moved to
   the end, country code and check digits make the number of the groups leave remainder 1, as ISO 13616-1 has it.
   */
  lemma PrintedForm(address: Address)
    ensures |TextOf(address)| == ADDRESS_LENGTH && TextOf(address)[..2] == "NQ"
    ensures forall k :: 0 <= k < 8 ==> TextOf(address)[4 + 5 * k] == ' '
    ensures |Ungroup(TextOf(address)[4..])| == 32
    ensures Value(Expand(Ungroup(TextOf(address)[4..]) + TextOf(address)[..4])) % 97 == 1
  {
    var body, text := Encode(address), TextOf(address);
    EncodedAddress(address);
    GroupsRoundTrip(body);
    TextParts(address, body);
    SpacesBehind(text, body);
    CheckDigitsValidate(body);
    assert body + ("NQ" + CheckDigits(body)) == body + "NQ" + CheckDigits(body);
  }

  lemma TextParts(address: Address, body: string)
    requires body == Encode(address)
    ensures TextOf(address)[4..] == Groups(body) && TextOf(address)[..4] == "NQ" + CheckDigits(body)
    ensures TextOf(address)[..2] == "NQ"
  {
    hide Encode, Groups;
  }

  lemma SpacesBehind(text: string, body: string)
    requires |body| == 32 && |text| >= 44 && text[4..] == Groups(body)
    ensures forall k :: 0 <= k < 8 ==> text[4 + 5 * k] == ' '
  {
    forall k | 0 <= k < 8
      ensures text[4 + 5 * k] == ' '
    {
      SpacesInGroups(body, k);
      assert text[4 + 5 * k] == text[4..][5 * k];
    }
  }

  lemma {:induction false} GroupAt(s: string, g: nat, j: nat)
    requires 4 * g < |s| && j < 4 && |s| % 4 == 0
    ensures 4 * |Groups(s)| == 5 * |s| && Groups(s)[5 * g + 1 + j] == s[4 * g + j]
  {
    GroupsRoundTrip(s);
    assert Groups(s) == (" " + s[..4]) + Groups(s[4..]);
    if g > 0 {
      GroupAt(s[4..], g - 1, j);
    }
  }

  /**
   Behind the check digits stands the address as a number of 32 digits in base 32, without I, O, W and Z: character `j`
   of group `g` is the digit with this place.
   */
  lemma DigitAt(address: Address, g: nat, j: nat)
    requires g < 8 && j < 4
    ensures |TextOf(address)| == 44
    ensures TextOf(address)[5 + 5 * g + j]
         == "0123456789ABCDEFGHJKLMNPQRSTUVXY"[Wire.BigEndian(address) / Pow2(5 * (31 - 4 * g - j)) % 32]
  {
    hide Groups, CheckDigits;
    EncodedAddress(address);
    EncodedNumber(address, 4 * g + j);
    GroupAt(Encode(address), g, j);
    assert TextOf(address)[4..] == Groups(Encode(address));
    assert TextOf(address)[5 + 5 * g + j] == TextOf(address)[4..][5 * g + 1 + j];
  }

  // ---------------------------------------------------------------------------------------------------------------
  // Swapped characters

  /** A pair of neighbours that can be swapped unnoticed. */
  predicate Unnoticed(a: char, b: char) {
    || (a == '1' && b == 'B') || (a == '2' && b == 'M') || (a == '3' && b == 'X')
    || (b == '1' && a == 'B') || (b == '2' && a == 'M') || (b == '3' && a == 'X')
  }

  lemma SymbolKind(c: char)
    requires SymbolValue(c).Some?
    ensures KindOf(c) == if c <= '9' then Digit else Upper
    ensures KindOf(c) == Upper ==> 10 <= CharValue(c) <= 34 && CharValue(c) == c as int - 55
    ensures KindOf(c) == Digit ==> 0 <= CharValue(c) <= 9 && CharValue(c) == c as int - 48
  {
  }

  /** Within the alphabet of addresses exactly the swaps of 1B, 2M and 3X go unnoticed. */
  lemma SwapOfSymbols(body: string, i: nat)
    requires i + 1 < |body| && OnlySymbols(body)
    ensures CheckDigits(SwapAt(body, i)) == CheckDigits(body) <==>
              body[i] == body[i + 1] || Unnoticed(body[i], body[i + 1])
  {
    SwapDetected(body, i);
    PalindromicSymbols(body[i], body[i + 1]);
  }

  lemma PalindromicSymbols(a: char, b: char)
    requires SymbolValue(a).Some? && SymbolValue(b).Some?
    ensures KindOf(a) != Other && KindOf(b) != Other
    ensures CharValue(a) == CharValue(b) || Palindromic(a, b) <==> a == b || Unnoticed(a, b)
  {
    SymbolKind(a);
    SymbolKind(b);
  }

  /** Two addresses whose numbers differ by a swap of neighbours only, both with valid check digits. */
  lemma UnnoticedSwap() returns (a: Address, b: Address)
    ensures a != b && Encode(a)[..2] == "1B" && Encode(b) == SwapAt(Encode(a), 0)
    ensures TextOf(a)[..4] == TextOf(b)[..4]
  {
    var body := seq(32, i requires 0 <= i < 32 => if i == 0 then '1' else if i == 1 then 'B' else '0');
    assert body[..2] == "1B";
    SwapOfSymbols(body, 0);
    a := AddressOf(body);
    b := AddressOf(SwapAt(body, 0));
    assert SwapAt(body, 0)[0] == 'B';
    SameStart(a, b);
  }

  /** The address that a text of 32 symbols stands for. */
  lemma AddressOf(body: string) returns (a: Address)
    requires |body| == 32 && OnlySymbols(body)
    ensures Encode(a) == body
  {
    EncodeDecode(body);
    a := Decode(body);
  }

  lemma SameStart(a: Address, b: Address)
    requires CheckDigits(Encode(a)) == CheckDigits(Encode(b))
    ensures TextOf(a)[..4] == TextOf(b)[..4]
  {
    assert TextOf(a)[..4] == "NQ" + CheckDigits(Encode(a));
    assert TextOf(b)[..4] == "NQ" + CheckDigits(Encode(b));
  }

  // ---------------------------------------------------------------------------------------------------------------
  // Printing

  /** Prints an address and a terminator; `behind` is the byte that `IbanCheck` reads behind its number. */
  method PrintAddress(address: Address, behind: char, out: array<char>) returns (r: Result<()>)
    requires out.Length > ADDRESS_LENGTH
    modifies out
    ensures r == Ok(())
    ensures out[..] == TextOf(address) + "\0" + old(out[ADDRESS_LENGTH + 1..])
  {
    EncodedAddress(address);
    var afterBase32 := new char[33](_ => '\0');
    assert address[..20] == address;
    r := Base32Encode(address, 20, afterBase32, 33);
    var body := afterBase32[..];
    assert body[..32] == Encode(address);
    r := IbanCheck(body, behind, out, 2);
    WriteGroups(address, body, out);
  }

  /** Writes a space and a group behind what is written. */
  method WriteGroup(out: array<char>, ghost orig: seq<char>, ghost written: string, at: nat, group: string)
    requires at == |written| && at + 1 + |group| <= out.Length == |orig|
    requires out[..] == written + orig[at..]
    modifies out
    ensures out[..] == (written + " " + group) + orig[at + 1 + |group|..]
  {
    Append(out, orig, written, at, " ");
    Append(out, orig, written + " ", at + 1, group);
  }

  /** What is printed of an address with the first `i` groups of its body. */
  ghost function PrintedSoFar(address: Address, body: seq<char>, i: nat): (text: string)
    requires 4 * i <= |body|
  {
    "NQ" + CheckDigits(Encode(address)) + Groups(body[..4 * i])
  }

  lemma NoGroup(address: Address, body: seq<char>)
    ensures PrintedSoFar(address, body, 0) == "NQ" + CheckDigits(Encode(address))
    ensures |PrintedSoFar(address, body, 0)| == 4
  {
    assert body[..0] == "";
  }

  lemma NextGroup(address: Address, body: seq<char>, i: nat)
    requires 4 * i + 4 <= |body|
    ensures PrintedSoFar(address, body, i + 1) == PrintedSoFar(address, body, i) + " " + body[4 * i..4 * i + 4]
  {
    hide CheckDigits, Encode;
    GroupsSnoc(body[..4 * i], body[4 * i..4 * i + 4]);
    assert body[..4 * i] + body[4 * i..4 * i + 4] == body[..4 * (i + 1)];
  }

  lemma AllGroups(address: Address, body: seq<char>)
    requires |body| >= 32 && body[..32] == Encode(address)
    ensures PrintedSoFar(address, body, 8) == TextOf(address) && |TextOf(address)| == ADDRESS_LENGTH
  {
    EncodedAddress(address);
  }

  /** Writes the country code and the groups around the check digits. */
  method WriteGroups(address: Address, body: seq<char>, out: array<char>)
    requires out.Length > ADDRESS_LENGTH && |body| == 33 && body[..32] == Encode(address)
    requires out[2..4] == CheckDigits(Encode(address))
    modifies out
    ensures out[..] == TextOf(address) + "\0" + old(out[ADDRESS_LENGTH + 1..])
  {
    hide CheckDigits, Encode, PrintedSoFar, TextOf;
    ghost var orig, written := out[..], PrintedSoFar(address, body, 0);
    NoGroup(address, body);
    var counter := 4;
    out[0], out[1] := 'N', 'Q';
    assert out[..] == written + orig[4..];
    for i := 0 to 8
      invariant counter == |written| == 4 + 5 * i
      invariant written == PrintedSoFar(address, body, i)
      invariant out[..] == written + orig[counter..]
    {
      var group := body[4 * i..4 * i + 4];
      NextGroup(address, body, i);
      WriteGroup(out, orig, written, counter, group);
      counter := counter + 5;
      written := written + " " + group;
    }
    AllGroups(address, body);
    Append(out, orig, written, 44, "\0");
  }

  lemma {:induction false} GroupsNoTerminator(s: string)
    requires '\0' !in s
    ensures '\0' !in Groups(s)
  {
    if |s| >= 4 {
      GroupsNoTerminator(s[4..]);
    }
  }

  lemma NoTerminator(address: Address)
    ensures '\0' !in TextOf(address)
  {
    EncodedAddress(address);
    forall c | c in Encode(address)
      ensures c != '\0'
    {
      assert KindOf(c) != Other;
    }
    GroupsNoTerminator(Encode(address));
  }

  /** The struct member that `print_address` fills, whatever stands behind the number of `IbanCheck` in memory. */
  method AddressField(address: Address) returns (text: string)
    ensures text == TextOf(address)
  {
    var out := new char[ADDRESS_LENGTH + 1];
    var behind: char := *;
    var r := PrintAddress(address, behind, out);
    NoTerminator(address);
    EncodedAddress(address);
    assert out[..][..ADDRESS_LENGTH] == TextOf(address);
    CStringOf(TextOf(address), out[..]);
    text := CString(out[..]);
  }
}
