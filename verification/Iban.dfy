/**
 `iban_check`: the check digits of ISO/IEC 7064 MOD 97-10 as ISO 13616-1 uses them, computed in pieces of nine digits,
 and the single-character errors that they detect.
 */
module Iban {
  import opened Arithmetic
  import opened Buffers
  import opened Decimal
  import opened Machine

  /** Characters that are replaced by numbers: one digit for a digit, two for a letter. */
  datatype Kind = Digit | Upper | Lower | Other

  function KindOf(c: char): Kind {
    if '0' <= c <= '9' then Digit
    else if 'A' <= c <= 'Z' then Upper
    else if 'a' <= c <= 'z' then Lower
    else Other
  }

  /** The number that stands for a character; letters count on from 10. Total, so that laws need no side condition. */
  function CharValue(c: char): (v: int)
    ensures 0 <= v < if KindOf(c) == Digit then 10 else 36
    ensures KindOf(c) == Upper || KindOf(c) == Lower ==> 10 <= v
  {
    match KindOf(c)
    case Digit => c as int - 48
    case Upper => c as int - 55
    case Lower => c as int - 87
    case Other => 0
  }

  function TwoDigits(n: int): (s: string)
    requires 0 <= n < 100
    ensures |s| == 2
  {
    [DigitChar(n / 10), DigitChar(n % 10)]
  }

  function ExpandChar(c: char): (s: string)
    ensures |s| == if KindOf(c) == Digit then 1 else 2
  {
    if KindOf(c) == Digit then [c] else TwoDigits(CharValue(c))
  }

  predicate Convertible(s: string) {
    forall i :: 0 <= i < |s| ==> KindOf(s[i]) != Other
  }

  /** The decimal number that stands for a text. */
  function Expand(s: string): (digits: string) {
    if s == "" then "" else Expand(s[..|s| - 1]) + ExpandChar(s[|s| - 1])
  }

  /** What is appended to an address before the remainder is taken. */
  const SUFFIX: string := "NQ00"

  function Remainder(body: string): (m: int)
    ensures 0 <= m < 97
  {
    Value(Expand(body + SUFFIX)) % 97
  }

  function CheckDigits(body: string): (s: string)
    ensures |s| == 2
  {
    TwoDigits(98 - Remainder(body))
  }

  // ---------------------------------------------------------------------------------------------------------------
  // Expansion

  lemma TwoDigitsValue(n: int)
    requires 0 <= n < 100
    ensures Value(TwoDigits(n)) == n && AllDigits(TwoDigits(n))
  {
    var high, low := DigitChar(n / 10), DigitChar(n % 10);
    ValueSnoc([], high);
    ValueSnoc([high], low);
    assert [] + [high] == [high] && TwoDigits(n) == [high] + [low];
  }

  lemma ExpandCharValue(c: char)
    ensures Value(ExpandChar(c)) == CharValue(c) && AllDigits(ExpandChar(c))
  {
    if KindOf(c) == Digit {
      assert [c][..0] == "";
    } else {
      TwoDigitsValue(CharValue(c));
    }
  }

  lemma {:induction false} ExpandDigits(s: string)
    ensures AllDigits(Expand(s)) && |s| <= |Expand(s)| <= 2 * |s|
  {
    if s != "" {
      ExpandDigits(s[..|s| - 1]);
      ExpandCharValue(s[|s| - 1]);
    }
  }

  lemma ExpandSnoc(s: string, c: char)
    ensures Expand(s + [c]) == Expand(s) + ExpandChar(c)
  {
    assert (s + [c])[..|s|] == s;
  }

  lemma ExpandFour(a: char, b: char, c: char, d: char)
    ensures |Expand([a, b, c, d])| == |ExpandChar(a)| + |ExpandChar(b)| + |ExpandChar(c)| + |ExpandChar(d)|
  {
    ExpandOne(a);
    ExpandSnoc([a], b);
    ExpandSnoc([a, b], c);
    ExpandSnoc([a, b, c], d);
    assert [a] + [b] == [a, b] && [a, b] + [c] == [a, b, c] && [a, b, c] + [d] == [a, b, c, d];
  }

  /** The number that is reduced has 38 to 70 digits. */
  lemma ExpandedLength(body: string)
    requires |body| == 32
    ensures 38 <= |Expand(body + SUFFIX)| <= 70
  {
    ExpandDigits(body);
    ExpandConcat(body, SUFFIX);
    ExpandFour('N', 'Q', '0', '0');
    assert SUFFIX == ['N', 'Q', '0', '0'];
  }

  lemma Associative(a: string, b: string, c: string)
    ensures (a + b) + c == a + (b + c)
  {
  }

  lemma {:induction false} ExpandConcat(s: string, t: string)
    ensures Expand(s + t) == Expand(s) + Expand(t)
  {
    if t == "" {
      assert s + t == s;
    } else {
      hide *;
      var u, c := t[..|t| - 1], t[|t| - 1];
      assert t == u + [c];
      ExpandConcat(s, u);
      ExpandSnoc(u, c);
      ExpandSnoc(s + u, c);
      Associative(s, u, [c]);
      Associative(Expand(s), Expand(u), ExpandChar(c));
    }
  }

  lemma ExpandOne(c: char)
    ensures Expand([c]) == ExpandChar(c)
  {
    assert [c][..0] == "";
  }

  // ---------------------------------------------------------------------------------------------------------------
  // Remainders

  /** Congruent numbers stay congruent when the same digits are appended. */
  lemma CongruentAppend(s: string, t: string, u: string)
    requires Value(s) % 97 == Value(t) % 97
    ensures Value(s + u) % 97 == Value(t + u) % 97
  {
    ValueConcat(s, u);
    ValueConcat(t, u);
    CongruentAffine(Value(s), Value(t), Pow10(|u|), Value(u), 97);
  }

  // ---------------------------------------------------------------------------------------------------------------
  // The computation

  /** `digits` at the start of the 71 cells, the rest of them still zero. */
  ghost predicate Filled(number: seq<char>, digits: string) {
    && |digits| <= 71 <= |number|
    && number[..|digits|] == digits
    && forall k :: |digits| <= k < 71 ==> number[k] == '\0'
  }

  /** The first loop: converts the address to a number, as long as all its characters are letters and digits. */
  method ConvertToNumber(address: seq<char>, totalNumber: array<char>) returns (ok: bool)
    requires |address| == 36 && address[32..] == SUFFIX
    requires totalNumber.Length >= 71 && Filled(totalNumber[..], "")
    modifies totalNumber
    ensures ok <==> Convertible(address)
    ensures ok ==> Filled(totalNumber[..], Expand(address)) && |Expand(address)| <= 70
    ensures forall k :: 71 <= k < totalNumber.Length ==> totalNumber[k] == old(totalNumber[k])
  {
    hide ExpandChar;
    var counter := 0;
    var i := 0;
    while i < 36
      invariant 0 <= i <= 36 && Convertible(address[..i])
      invariant counter == |Expand(address[..i])| && counter <= if i <= 34 then 2 * i else 34 + i
      invariant Filled(totalNumber[..], Expand(address[..i]))
      invariant forall k :: 71 <= k < totalNumber.Length ==> totalNumber[k] == old(totalNumber[k])
    {
      hide Expand;
      assert counter < 70; // the assertion in the source
      var c := address[i];
      assert i >= 32 ==> c == address[32..][i - 32];
      if KindOf(c) == Other {
        return false;
      }
      assert address[..i + 1][..i] == address[..i];
      ExpandSnoc(address[..i], c);
      assert address[..i + 1] == address[..i] + [c];
      counter := ConvertChar(c, totalNumber, counter, Expand(address[..i]));
      i := i + 1;
    }
    assert address[..36] == address;
    return true;
  }

  /** Prints a character's digits behind those before; for a letter with a terminator, too. */
  method ConvertChar(c: char, totalNumber: array<char>, counter: nat, ghost digits: string) returns (next: nat)
    requires KindOf(c) != Other && counter == |digits| < 70 && Filled(totalNumber[..], digits)
    requires KindOf(c) == Digit || counter < 69
    modifies totalNumber
    ensures next == |digits + ExpandChar(c)| && Filled(totalNumber[..], digits + ExpandChar(c))
    ensures forall k :: 71 <= k < totalNumber.Length ==> totalNumber[k] == old(totalNumber[k])
  {
    if KindOf(c) == Digit {
      Store(totalNumber, counter, [c]);
      next := counter + 1;
    } else {
      Store(totalNumber, counter, TwoDigits(CharValue(c)) + "\0");
      next := counter + 2;
    }
    FilledStep(old(totalNumber[..]), totalNumber[..], digits, ExpandChar(c));
    assert forall k :: 71 <= k < totalNumber.Length ==> totalNumber[..][k] == old(totalNumber[..])[k];
  }

  lemma FilledStep(before: seq<char>, after: seq<char>, digits: string, more: string)
    requires Filled(before, digits) && |digits| + |more| < 71
    requires || after == before[..|digits|] + more + before[|digits| + |more|..]
             || after == before[..|digits|] + (more + "\0") + before[|digits| + |more| + 1..]
    ensures Filled(after, digits + more)
    ensures |after| == |before| && forall k :: 71 <= k < |before| ==> after[k] == before[k]
  {
  }

  /** The digits up to the terminator. */
  ghost predicate RunOf(cells: seq<char>, run: string) {
    && |run| <= |cells| && AllDigits(run) && run == cells[..|run|]
    && (|run| < |cells| ==> cells[|run|] == '\0')
  }

  /** The inner loop: reads up to nine digits into a 32-bit number. */
  method ReadPiece(partial: array<char>, ghost run: string) returns (partialUint: i32)
    requires partial.Length == 10 && RunOf(partial[..9], run)
    ensures partialUint == Value(run) && 0 <= partialUint
  {
    partialUint := 0;
    var j := 0;
    while j < 9 && partial[j] != '\0'
      invariant 0 <= j <= |run| <= 9
      invariant partialUint == Value(run[..j]) && 0 <= partialUint < Pow10(j)
      decreases 9 - j
    {
      assert partial[j] == partial[..9][j];
      assert j < |run| && run[j] == partial[j];
      assert run[..j + 1] == run[..j] + [run[j]];
      ValueSnoc(run[..j], run[j]);
      TenthPower(j);
      partialUint := 10 * partialUint + (partial[j] as int - '0' as int);
      j := j + 1;
    }
    assert j == 9 || partial[..9][j] == '\0';
    assert run[..j] == run;
  }

  lemma TenthPower(j: nat)
    requires j < 9
    ensures Pow10(j + 1) == 10 * Pow10(j) && Pow10(j + 1) <= 1_000_000_000
    decreases 9 - j
  {
    if j < 8 {
      TenthPower(j + 1);
    } else {
      assert Pow10(9) == 10 * (10 * (10 * (10 * (10 * (10 * (10 * (10 * (10 * Pow10(0)))))))));
    }
  }

  /** The digits that a round starting at `counter` takes, at most `room` of them. */
  function Piece(digits: string, counter: nat, room: nat): string {
    if counter >= |digits| then ""
    else if counter + room >= |digits| then digits[counter..]
    else digits[counter..counter + room]
  }

  function Prefix(digits: string, counter: nat): string {
    if counter >= |digits| then digits else digits[..counter]
  }

  /** A round that starts with the remainder so far ends with the remainder of more digits. */
  lemma RoundRemainder(digits: string, counter: nat, room: nat, lead: string, modulo: int)
    requires 0 <= modulo < 97 && modulo == Value(Prefix(digits, counter)) % 97
    requires lead == TwoDigits(modulo) || (lead == "" && counter == 0)
    ensures Value(lead + Piece(digits, counter, room)) % 97 == Value(Prefix(digits, counter + room)) % 97
  {
    if lead != "" {
      TwoDigitsValue(modulo);
    }
    assert Value(lead) % 97 == modulo;
    CongruentAppend(lead, Prefix(digits, counter), Piece(digits, counter, room));
    PiecesJoin(digits, counter, room);
  }

  lemma PiecesJoin(digits: string, counter: nat, room: nat)
    ensures Prefix(digits, counter) + Piece(digits, counter, room) == Prefix(digits, counter + room)
  {
  }

  /** One round: `room` more cells are taken behind `lead`, the remainder is computed and printed as the next lead. */
  method Round(totalNumber: array<char>, partialNumber: array<char>, counter: nat, offset: nat,
               ghost digits: string, ghost lead: string) returns (modulo: int)
    requires totalNumber.Length == 72 && Filled(totalNumber[..], digits) && |digits| <= 70 && AllDigits(digits)
    requires offset == |lead| <= 2 && AllDigits(lead) && counter <= 70 && counter + 9 - offset <= 72
    requires partialNumber.Length == 10 && partialNumber != totalNumber && partialNumber[..offset] == lead
    modifies partialNumber
    ensures modulo == Value(lead + Piece(digits, counter, 9 - offset)) % 97
    ensures partialNumber[..2] == TwoDigits(modulo)
  {
    var room := 9 - offset;
    Store(partialNumber, offset, totalNumber[counter..counter + room]);
    assert partialNumber[..9] == lead + totalNumber[counter..counter + room];
    RunFromPiece(totalNumber[..], digits, counter, room, lead);
    var partialUint := ReadPiece(partialNumber, lead + Piece(digits, counter, room));
    modulo := partialUint % 97;
    Store(partialNumber, 0, TwoDigits(modulo) + "\0");
  }

  /**
   The second loop: ten rounds that each take the remainder so far, as two digits, and the next seven digits (nine
   digits in the first round). The last round touches cell 71, one behind the number's 71 cells; the result is the
   remainder of the whole number whatever stands there.
   */
  method RemainderInPieces(totalNumber: array<char>, ghost digits: string) returns (modulo: int)
    requires totalNumber.Length == 72 && Filled(totalNumber[..], digits) && |digits| <= 70 && AllDigits(digits)
    ensures modulo == Value(digits) % 97
  {
    var partialNumber := new char[10](_ => '\0');
    var counter, offset := 0, 0;
    modulo := 0;
    ghost var lead := "";
    for i := 0 to 10
      invariant counter == if i == 0 then 0 else 2 + 7 * i
      invariant offset == |lead| == if i == 0 then 0 else 2
      invariant partialNumber[..offset] == lead
      invariant 0 <= modulo < 97 && lead == if i == 0 then "" else TwoDigits(modulo)
      invariant modulo == Value(Prefix(digits, counter)) % 97
    {
      RoundRemainder(digits, counter, 9 - offset, lead, modulo);
      if i > 0 {
        TwoDigitsValue(modulo);
      }
      modulo := Round(totalNumber, partialNumber, counter, offset, digits, lead);
      counter := counter + 9 - offset;
      lead, offset := TwoDigits(modulo), 2;
    }
    assert Prefix(digits, counter) == digits;
  }

  lemma RunFromPiece(number: seq<char>, digits: string, counter: nat, room: nat, lead: string)
    requires |number| == 72 && Filled(number, digits) && |digits| <= 70 && AllDigits(digits) && AllDigits(lead)
    requires counter <= 70 && counter + room <= 72
    ensures RunOf(lead + number[counter..counter + room], lead + Piece(digits, counter, room))
  {
    var piece, cells := Piece(digits, counter, room), number[counter..counter + room];
    forall k | 0 <= k < |piece|
      ensures piece[k] == cells[k]
    {
      assert digits[counter + k] == number[..|digits|][counter + k];
    }
    assert (lead + cells)[..|lead + piece|] == lead + piece;
    if |piece| < room {
      assert number[counter + |piece|] == '\0';
    }
  }

  /**
   Writes the two check digits of a 32-character body and a terminator at `out[at..]`, and nothing else. `behind` is the
   byte behind the number's 71 cells in memory: it is read, and the result does not depend on it.
   */
  method IbanCheck(base32: seq<char>, behind: char, out: array<char>, at: nat) returns (r: Result<()>)
    requires |base32| >= 32 && at + 3 <= out.Length
    modifies out
    ensures r == if Convertible(base32[..32]) then Ok(()) else Err(IncorrectData)
    ensures r.Ok? ==> out[..] == old(out[..at]) + CheckDigits(base32[..32]) + "\0" + old(out[at + 3..])
    ensures r.Err? ==> out[..] == old(out[..])
  {
    var address := base32[..32] + SUFFIX;
    var totalNumber := new char[72](i => if i == 71 then behind else '\0');
    var ok := ConvertToNumber(address, totalNumber);
    ConvertibleParts(base32[..32], SUFFIX);
    if !ok {
      return Err(IncorrectData);
    }
    ExpandDigits(address);
    var modulo := RemainderInPieces(totalNumber, Expand(address));
    Store(out, at, TwoDigits(98 - modulo) + "\0");
    return Ok(());
  }

  lemma ConvertibleParts(s: string, t: string)
    requires Convertible(t)
    ensures Convertible(s + t) <==> Convertible(s)
  {
    assert forall i :: 0 <= i < |s| ==> (s + t)[i] == s[i];
  }

  // ---------------------------------------------------------------------------------------------------------------
  // The number of a text, without its digits

  /** What becomes of a number when the digits of a character are appended, but for these digits. */
  function Shift(n: int, c: char): int {
    if KindOf(c) == Digit then 10 * n else 100 * n
  }

  function Number(s: string): int {
    if s == "" then 0 else Shift(Number(s[..|s| - 1]), s[|s| - 1]) + CharValue(s[|s| - 1])
  }

  function Weight(s: string): int {
    if s == "" then 1 else Shift(Weight(s[..|s| - 1]), s[|s| - 1])
  }

  /** A character's digits shift the number as far as they are many. */
  lemma ShiftByDigits(n: int, c: char)
    ensures n * Pow10(|ExpandChar(c)|) == Shift(n, c)
  {
    assert Pow10(1) == 10 && Pow10(2) == 10 * Pow10(1);
  }

  lemma {:induction false} NumberOfExpansion(s: string)
    ensures Value(Expand(s)) == Number(s)
  {
    hide ExpandChar;
    if s != "" {
      var init, c := s[..|s| - 1], s[|s| - 1];
      NumberOfExpansion(init);
      ExpandCharValue(c);
      ValueConcat(Expand(init), ExpandChar(c));
      ShiftByDigits(Value(Expand(init)), c);
    }
  }

  lemma NumberSnoc(s: string, c: char)
    ensures Number(s + [c]) == Shift(Number(s), c) + CharValue(c)
    ensures Weight(s + [c]) == Shift(Weight(s), c)
  {
    assert (s + [c])[..|s|] == s;
  }

  lemma {:induction false} NumberConcat(s: string, t: string)
    ensures Number(s + t) == Number(s) * Weight(t) + Number(t)
  {
    if t == "" {
      assert s + t == s;
    } else {
      var u, c := t[..|t| - 1], t[|t| - 1];
      NumberConcat(s, u);
      NumberSnoc(s + u, c);
      assert s + t == (s + u) + [c];
      ScaleProduct(Number(s), Weight(u));
    }
  }

  lemma ScaleProduct(a: int, w: int)
    ensures 10 * (a * w) == a * (10 * w) && 100 * (a * w) == a * (100 * w)
  {
  }

  /** 97 divides a shifted number only if it divides the number. */
  lemma {:induction false} WeightCoprime(d: int, s: string)
    ensures d * Weight(s) % 97 == 0 <==> d % 97 == 0
  {
    if s != "" {
      var w := Weight(s[..|s| - 1]);
      WeightCoprime(d, s[..|s| - 1]);
      TenCoprime(d * w);
      TenCoprime(10 * (d * w));
      ScaleProduct(d, w);
    }
  }

  /** Multiplying by ten can be undone modulo 97. */
  lemma TenCoprime(x: int)
    ensures 10 * x % 97 == 0 <==> x % 97 == 0
  {
    var q, t := x / 97, 10 * x / 97;
    if 10 * x % 97 == 0 {
      DivModUnique(x, 97, 68 * t - 7 * x, 0);
    } else if x % 97 == 0 {
      DivModUnique(10 * x, 97, 10 * q, 0);
    }
  }

  lemma RemainderOfNumber(body: string)
    ensures Remainder(body) == Number(body + SUFFIX) % 97
  {
    NumberOfExpansion(body + SUFFIX);
  }

  // ---------------------------------------------------------------------------------------------------------------
  // What the check digits are good for

  /** With the check digits in place of the zeros the number leaves remainder 1, as the standard requires. */
  lemma CheckDigitsValidate(body: string)
    ensures Value(Expand(body + "NQ" + CheckDigits(body))) % 97 == 1
    ensures 2 <= Value(CheckDigits(body)) <= 98
  {
    var front, n := body + "NQ", 98 - Remainder(body);
    assert body + SUFFIX == front + TwoDigits(0);
    RemainderOfNumber(body);
    TwoDigitsValue(n);
    ValidNumber(front, n);
  }

  lemma ValidNumber(front: string, n: int)
    requires 0 <= n < 100 && n == 98 - Number(front + TwoDigits(0)) % 97
    ensures Value(Expand(front + TwoDigits(n))) % 97 == 1
  {
    AppendTwoDigits(front, n);
    AppendTwoDigits(front, 0);
    NumberOfExpansion(front + TwoDigits(n));
    RemainderToOne(100 * Number(front), n);
  }

  lemma RemainderToOne(x: int, n: int)
    requires n == 98 - x % 97
    ensures (x + n) % 97 == 1
  {
    assert x + n == 97 * (x / 97 + 1) + 1;
  }

  lemma AppendTwoDigits(front: string, n: int)
    requires 0 <= n < 100
    ensures Number(front + TwoDigits(n)) == 100 * Number(front) + n
  {
    var a, b := DigitChar(n / 10), DigitChar(n % 10);
    NumberSnoc(front, a);
    NumberSnoc(front + [a], b);
    assert front + TwoDigits(n) == front + [a] + [b];
  }

  /** The check digits tell two bodies apart exactly when their remainders differ. */
  lemma CheckDigitsByRemainder(a: string, b: string)
    ensures CheckDigits(a) == CheckDigits(b) <==> Remainder(a) == Remainder(b)
  {
    TwoDigitsValue(98 - Remainder(a));
    TwoDigitsValue(98 - Remainder(b));
  }

  /** Texts that are followed by the same text are told apart exactly when 97 does not divide their difference. */
  lemma SameRest(s: string, t: string, d: int, rest: string)
    requires d == Number(s) - Number(t)
    ensures Number(s + rest) % 97 == Number(t + rest) % 97 <==> d % 97 == 0
  {
    RestDifference(s, t, d, rest);
    WeightCoprime(d, rest);
    SameRemainder(Number(s + rest), Number(t + rest), d * Weight(rest));
  }

  lemma RestDifference(s: string, t: string, d: int, rest: string)
    requires d == Number(s) - Number(t)
    ensures Number(s + rest) - Number(t + rest) == d * Weight(rest)
  {
    NumberConcat(s, rest);
    NumberConcat(t, rest);
    Difference(Number(s), Number(t), d, Weight(rest));
  }

  lemma Difference(x: int, y: int, d: int, w: int)
    requires d == x - y
    ensures x * w - y * w == d * w
  {
  }

  lemma NumberDifference(front: string, x: string, y: string)
    requires Weight(x) == Weight(y)
    ensures Number(front + x) - Number(front + y) == Number(x) - Number(y)
  {
    NumberConcat(front, x);
    NumberConcat(front, y);
  }

  lemma SameRemainder(a: int, b: int, e: int)
    requires a - b == e
    ensures a % 97 == b % 97 <==> e % 97 == 0
  {
  }

  /**
   Replacing a part of a body by another one of the same weight goes unnoticed exactly when 97 divides the difference of
   the two parts' numbers.
   */
  lemma PartReplaced(body: string, other: string, front: string, x: string, y: string, back: string)
    requires body == front + x + back && other == front + y + back && Weight(x) == Weight(y)
    ensures CheckDigits(body) == CheckDigits(other) <==> (Number(x) - Number(y)) % 97 == 0
  {
    hide CheckDigits;
    var f, g, d := front + x, front + y, Number(x) - Number(y);
    assert d == Number(f) - Number(g) by {
      NumberDifference(front, x, y);
    }
    FrontReplaced(body, other, f, g, d, back);
  }

  lemma FrontReplaced(body: string, other: string, f: string, g: string, d: int, back: string)
    requires body == f + back && other == g + back && d == Number(f) - Number(g)
    ensures CheckDigits(body) == CheckDigits(other) <==> d % 97 == 0
  {
    SuffixedPart(body, f, back);
    SuffixedPart(other, g, back);
    SameRest(f, g, d, back + SUFFIX);
    CheckDigitsByRemainder(body, other);
  }

  lemma SuffixedPart(body: string, front: string, back: string)
    requires body == front + back
    ensures Remainder(body) == Number(front + (back + SUFFIX)) % 97
  {
    assert body + SUFFIX == front + (back + SUFFIX);
    RemainderOfNumber(body);
  }

  lemma NumberOfOne(c: char)
    ensures Number([c]) == CharValue(c) && Weight([c]) == Shift(1, c)
  {
    NumberSnoc("", c);
    assert "" + [c] == [c];
  }

  lemma NumberOfTwo(a: char, b: char)
    ensures Number([a, b]) == Shift(CharValue(a), b) + CharValue(b) && Weight([a, b]) == Shift(Shift(1, a), b)
  {
    NumberOfOne(a);
    NumberSnoc([a], b);
    assert [a] + [b] == [a, b];
  }

  /** Any wrong character of the same kind is detected. */
  lemma SubstitutionDetected(body: string, i: nat, c: char)
    requires i < |body| && KindOf(c) == KindOf(body[i]) != Other && c != body[i]
    ensures CheckDigits(body[i := c]) != CheckDigits(body)
  {
    NumberOfOne(body[i]);
    NumberOfOne(c);
    assert body == body[..i] + [body[i]] + body[i + 1..];
    assert body[i := c] == body[..i] + [c] + body[i + 1..];
    PartReplaced(body, body[i := c], body[..i], [body[i]], [c], body[i + 1..]);
  }

  /** A digit next to the letter that stands for eleven times the digit: both orders give the same three digits. */
  predicate Palindromic(a: char, b: char) {
    || (KindOf(a) == Digit && KindOf(b) != Digit && CharValue(b) == 11 * CharValue(a))
    || (KindOf(b) == Digit && KindOf(a) != Digit && CharValue(a) == 11 * CharValue(b))
  }

  function SwapAt(s: string, i: nat): (t: string)
    requires i + 1 < |s|
    ensures |t| == |s|
  {
    s[i := s[i + 1]][i + 1 := s[i]]
  }

  /**
   Swapping two neighbours goes unnoticed exactly when they stand for the same number, or when one is a digit and the
   other the letter worth eleven times as much (`1B`, `2M`, `3X`).
   */
  lemma SwapDetected(body: string, i: nat)
    requires i + 1 < |body| && KindOf(body[i]) != Other && KindOf(body[i + 1]) != Other
    ensures CheckDigits(SwapAt(body, i)) == CheckDigits(body)
       <==> CharValue(body[i]) == CharValue(body[i + 1]) || Palindromic(body[i], body[i + 1])
  {
    var a, b := body[i], body[i + 1];
    assert body == body[..i] + [a, b] + body[i + 2..];
    assert SwapAt(body, i) == body[..i] + [b, a] + body[i + 2..];
    PairDifference(a, b);
    PartReplaced(body, SwapAt(body, i), body[..i], [a, b], [b, a], body[i + 2..]);
  }

  lemma PairDifference(a: char, b: char)
    requires KindOf(a) != Other && KindOf(b) != Other
    ensures Weight([a, b]) == Weight([b, a])
    ensures (Number([a, b]) - Number([b, a])) % 97 == 0 <==> CharValue(a) == CharValue(b) || Palindromic(a, b)
  {
    NumberOfTwo(a, b);
    NumberOfTwo(b, a);
    var x, y := CharValue(a), CharValue(b);
    if KindOf(a) == Digit && KindOf(b) == Digit {
      SmallMultiple(x - y);
    } else if KindOf(a) != Digit && KindOf(b) != Digit {
      SmallMultiple(x - y);
    } else if KindOf(a) == Digit {
      SmallMultiple(11 * x - y);
    } else {
      SmallMultiple(x - 11 * y);
    }
  }

  /** 97 divides neither 9 nor 99 times a number smaller than itself. */
  lemma SmallMultiple(z: int)
    requires -97 < z < 97
    ensures 9 * z % 97 == 0 <==> z == 0
    ensures 99 * z % 97 == 0 <==> z == 0
  {
    var s, t := 9 * z / 97, 99 * z / 97;
    if 9 * z % 97 == 0 {
      assert z == 97 * (54 * s - 5 * z);
    }
    if 99 * z % 97 == 0 {
      assert z == 97 * (49 * (t - z) - z);
    }
  }
}
