/** `parse_amount`: amounts in Luna printed as NIM, canonically and exactly. */
module Amount {
  import opened Arithmetic
  import opened Buffers
  import opened Decimal
  import opened Machine

  /** Number.MAX_SAFE_INTEGER of JavaScript. */
  const MAX_SAFE_LUNA_AMOUNT: u64 := 9007199254740991

  /** Buffer sizes with the terminator: "90071992547.40991" and the same with " NIM". */
  const AMOUNT_LENGTH := 18
  const AMOUNT_WITH_TICKER_LENGTH := 22

  const LUNA_PER_NIM := 100_000

  /** The `k` low digits of a number, with leading zeros. */
  function LowDigits(n: nat, k: nat): (s: string)
    ensures |s| == k
  {
    if k == 0 then "" else LowDigits(n / 10, k - 1) + [DigitChar(n % 10)]
  }

  /** What is left without the `k` low digits. */
  function DropDigits(n: nat, k: nat): nat {
    if k == 0 then n else DropDigits(n / 10, k - 1)
  }

  function StripZeros(s: string): (t: string)
    ensures |t| <= |s| && t == s[..|t|]
  {
    if s != "" && s[|s| - 1] == '0' then StripZeros(s[..|s| - 1]) else s
  }

  /** The amount in NIM, without superfluous zeros. */
  function AmountText(amount: nat): string {
    Numeral(amount / LUNA_PER_NIM)
    + if amount % LUNA_PER_NIM == 0 then "" else "." + StripZeros(LowDigits(amount, 5))
  }

  // ---------------------------------------------------------------------------------------------------------------
  // Reading an amount back

  /** Position of the decimal point, or the end if there is none. */
  function PointAt(s: string): (i: nat)
    ensures i <= |s|
  {
    if s == "" || s[0] == '.' then 0 else 1 + PointAt(s[1..])
  }

  function Whole(s: string): string {
    s[..PointAt(s)]
  }

  function Fraction(s: string): string {
    if PointAt(s) == |s| then "" else s[PointAt(s) + 1..]
  }

  /** The amount in Luna of a text with at most five decimals. */
  function ReadAmount(s: string): int {
    Value(Whole(s)) * LUNA_PER_NIM + Value(Fraction(s)) * Pow10(if |Fraction(s)| <= 5 then 5 - |Fraction(s)| else 0)
  }

  /** A whole number without leading zeros, and after a point one to five decimals, the last of them not zero. */
  predicate IsCanonicalAmount(s: string) {
    && IsCanonical(Whole(s))
    && AllDigits(Fraction(s)) && |Fraction(s)| <= 5
    && (PointAt(s) < |s| ==> Fraction(s) != "" && Fraction(s)[|Fraction(s)| - 1] != '0')
  }

  lemma {:induction false} LowDigitsValue(n: nat, k: nat)
    ensures AllDigits(LowDigits(n, k)) && Value(LowDigits(n, k)) == n % Pow10(k)
  {
    if k > 0 {
      LowDigitsValue(n / 10, k - 1);
      ValueSnoc(LowDigits(n / 10, k - 1), DigitChar(n % 10));
      TenthDivMod(n, Pow10(k - 1));
    } else {
      assert n % 1 == 0;
    }
  }

  lemma TenthDivMod(n: nat, p: int)
    requires p > 0
    ensures n % (10 * p) == 10 * (n / 10 % p) + n % 10
  {
    QuotientBounds(n / 10, p);
    ModBounds(n / 10, p);
    assert n / 10 / p * (10 * p) == 10 * (n / 10 / p * p);
    DivModUnique(n, 10 * p, n / 10 / p, 10 * (n / 10 % p) + n % 10);
  }

  /** Stripping zeros divides by a power of ten and leaves no zero at the end. */
  lemma {:induction false} StripZerosValue(s: string)
    requires AllDigits(s)
    ensures Value(s) == Value(StripZeros(s)) * Pow10(|s| - |StripZeros(s)|)
    ensures AllDigits(StripZeros(s))
    ensures StripZeros(s) != "" ==> StripZeros(s)[|StripZeros(s)| - 1] != '0'
    ensures StripZeros(s) == "" <==> Value(s) == 0
  {
    if s != "" {
      var init, c := s[..|s| - 1], s[|s| - 1];
      assert s == init + [c];
      ValueSnoc(init, c);
      ValueBounds(init);
      if c == '0' {
        StripZerosValue(init);
        var t := StripZeros(init);
        assert Pow10(|s| - |t|) == 10 * Pow10(|init| - |t|);
        TenTimes(Value(t), Pow10(|init| - |t|));
      }
    }
  }

  lemma TenTimes(a: int, p: int)
    ensures 10 * (a * p) == a * (10 * p)
  {
  }

  /** The parts of a text that is put together of them. */
  lemma {:induction false} PartsOf(whole: string, rest: string)
    requires AllDigits(whole) && (rest == "" || rest[0] == '.')
    ensures PointAt(whole + rest) == |whole|
  {
    if whole == "" {
      assert whole + rest == rest;
    } else {
      assert (whole + rest)[1..] == whole[1..] + rest;
      PartsOf(whole[1..], rest);
    }
  }

  lemma FivePlaces()
    ensures Pow10(5) == LUNA_PER_NIM
  {
    assert Pow10(5) == 10 * (10 * (10 * (10 * (10 * Pow10(0)))));
  }

  lemma AmountParts(amount: nat)
    ensures Whole(AmountText(amount)) == Numeral(amount / LUNA_PER_NIM)
    ensures Fraction(AmountText(amount)) == StripZeros(LowDigits(amount, 5))
    ensures PointAt(AmountText(amount)) < |AmountText(amount)| <==> amount % LUNA_PER_NIM != 0
  {
    var whole, f := Numeral(amount / LUNA_PER_NIM), StripZeros(LowDigits(amount, 5));
    var rest := if amount % LUNA_PER_NIM == 0 then "" else "." + f;
    NumeralDigits(amount / LUNA_PER_NIM);
    PartsOf(whole, rest);
    FivePlaces();
    LowDigitsValue(amount, 5);
    StripZerosValue(LowDigits(amount, 5));
    assert (whole + rest)[..|whole|] == whole;
  }

  /** The printed text reads back as exactly the amount, and it is the canonical text of it. */
  lemma AmountRoundTrip(amount: nat)
    ensures ReadAmount(AmountText(amount)) == amount
    ensures IsCanonicalAmount(AmountText(amount))
  {
    AmountParts(amount);
    NumeralRoundTrip(amount / LUNA_PER_NIM);
    FivePlaces();
    LowDigitsValue(amount, 5);
    StripZerosValue(LowDigits(amount, 5));
  }

  /** Comparing printed amounts is comparing amounts. */
  lemma AmountInjective(a: nat, b: nat)
    ensures AmountText(a) == AmountText(b) <==> a == b
  {
    AmountRoundTrip(a);
    AmountRoundTrip(b);
  }

  /** Digits determine the low digits of their number. */
  lemma {:induction false} LowDigitsOfValue(s: string)
    requires AllDigits(s)
    ensures Value(s) >= 0 && LowDigits(Value(s), |s|) == s
  {
    ValueBounds(s);
    if s != "" {
      var init, c := s[..|s| - 1], s[|s| - 1];
      assert s == init + [c];
      ValueSnoc(init, c);
      ValueBounds(init);
      LowDigitsOfValue(init);
      assert Value(s) / 10 == Value(init) && DigitChar(Value(s) % 10) == c;
    }
  }

  function Zeros(k: nat): (s: string)
    ensures |s| == k
  {
    if k == 0 then "" else Zeros(k - 1) + "0"
  }

  lemma {:induction false} ZerosValue(k: nat)
    ensures AllDigits(Zeros(k)) && Value(Zeros(k)) == 0
  {
    if k > 0 {
      ZerosValue(k - 1);
      ValueSnoc(Zeros(k - 1), '0');
    }
  }

  lemma AppendZeros(s: string, k: nat)
    requires AllDigits(s)
    ensures AllDigits(s + Zeros(k)) && Value(s + Zeros(k)) == Value(s) * Pow10(k)
  {
    ZerosValue(k);
    ValueConcat(s, Zeros(k));
  }

  lemma {:induction false} StripAppendedZeros(s: string, k: nat)
    requires s == "" || s[|s| - 1] != '0'
    ensures StripZeros(s + Zeros(k)) == s
  {
    if k == 0 {
      assert s + "" == s;
    } else {
      StripAppendedZeros(s, k - 1);
      assert s + Zeros(k) == (s + Zeros(k - 1)) + "0";
      StripOneZero(s + Zeros(k - 1));
    }
  }

  lemma StripOneZero(s: string)
    ensures StripZeros(s + "0") == StripZeros(s)
  {
    assert (s + "0")[..|s|] == s;
  }

  /** Only the low digits matter. */
  lemma {:induction false} LowDigitsShift(q: nat, m: nat, k: nat)
    ensures q * Pow10(k) + m >= 0 && LowDigits(q * Pow10(k) + m, k) == LowDigits(m, k)
  {
    MulNonNegative(q, Pow10(k));
    if k > 0 {
      TenTimes(q, Pow10(k - 1));
      TenthOfSum(q * Pow10(k - 1), m);
      LowDigitsShift(q, m / 10, k - 1);
    }
  }

  lemma TenthOfSum(x: int, m: int)
    ensures (10 * x + m) / 10 == x + m / 10 && (10 * x + m) % 10 == m % 10
  {
  }

  /** There is only one canonical text for an amount. */
  lemma CanonicalAmountUnique(s: string)
    requires IsCanonicalAmount(s)
    ensures ReadAmount(s) >= 0 && AmountText(ReadAmount(s)) == s
  {
    hide Value, Numeral, StripZeros, Zeros, AmountText, ReadAmount;
    var whole, f := Whole(s), Fraction(s);
    var padded := f + Zeros(5 - |f|);
    ReadPadded(s, padded);
    TextOfParts(Value(whole), padded);
    PointIsThere(s);
  }

  /** Filling up the decimals of a canonical text. */
  lemma ReadPadded(s: string, padded: string)
    requires IsCanonicalAmount(s) && padded == Fraction(s) + Zeros(5 - |Fraction(s)|)
    ensures Value(Whole(s)) >= 0 && Numeral(Value(Whole(s))) == Whole(s)
    ensures AllDigits(padded) && StripZeros(padded) == Fraction(s) && (Fraction(s) == "" <==> Value(padded) == 0)
    ensures Value(padded) >= 0 && ReadAmount(s) == Value(Whole(s)) * LUNA_PER_NIM + Value(padded)
  {
    hide Value, Numeral, StripZeros, Zeros, PointAt, Pow10;
    var f := Fraction(s);
    CanonicalRoundTrip(Whole(s));
    AppendZeros(f, 5 - |f|);
    ValueBounds(padded);
    StripAppendedZeros(f, 5 - |f|);
    StripZerosValue(padded);
  }

  lemma TextOfParts(whole: nat, decimals: string)
    requires AllDigits(decimals) && |decimals| == 5
    ensures Value(decimals) >= 0
    ensures AmountText(whole * LUNA_PER_NIM + Value(decimals))
         == Numeral(whole) + if Value(decimals) == 0 then "" else "." + StripZeros(decimals)
  {
    AmountOfParts(whole, decimals);
  }

  /** Splitting an amount into whole NIM and five decimals. */
  lemma AmountOfParts(whole: nat, decimals: string)
    requires AllDigits(decimals) && |decimals| == 5
    ensures var a := whole * LUNA_PER_NIM + Value(decimals);
            && Value(decimals) >= 0 && a / LUNA_PER_NIM == whole && a % LUNA_PER_NIM == Value(decimals)
            && LowDigits(a, 5) == decimals
  {
    FivePlaces();
    ValueBounds(decimals);
    LowDigitsOfValue(decimals);
    LowDigitsShift(whole, Value(decimals), 5);
  }

  lemma {:induction false} PointIsThere(s: string)
    ensures s == Whole(s) + if PointAt(s) < |s| then "." + Fraction(s) else ""
  {
    if s != "" && s[0] != '.' {
      PointIsThere(s[1..]);
      assert Whole(s) == [s[0]] + Whole(s[1..]);
      assert Fraction(s) == Fraction(s[1..]);
    }
  }

  // ---------------------------------------------------------------------------------------------------------------
  // Printing

  /** The text before stripping: at least one whole digit and five decimals. */
  function RawText(amount: nat): string {
    Numeral(amount / LUNA_PER_NIM) + "." + LowDigits(amount, 5)
  }

  function Reversed(s: string): (t: string)
    ensures |t| == |s|
  {
    if s == "" then "" else [s[|s| - 1]] + Reversed(s[..|s| - 1])
  }

  lemma ReversedSnoc(s: string, c: char)
    ensures Reversed(s + [c]) == [c] + Reversed(s)
  {
    assert (s + [c])[..|s|] == s;
  }

  lemma {:induction false} ReversedAt(s: string, k: nat)
    requires k < |s|
    ensures Reversed(s)[k] == s[|s| - 1 - k]
  {
    if k > 0 {
      ReversedAt(s[..|s| - 1], k - 1);
    }
  }

  /** The next digit stands in front of the low digits. */
  lemma {:induction false} NextLowDigit(n: nat, k: nat)
    ensures LowDigits(n, k + 1) == [DigitChar(DropDigits(n, k) % 10)] + LowDigits(n, k)
    ensures DropDigits(n, k + 1) == DropDigits(n, k) / 10
  {
    if k > 0 {
      NextLowDigit(n / 10, k - 1);
    }
  }

  lemma DropFive(n: nat)
    ensures DropDigits(n, 5) == n / LUNA_PER_NIM
  {
    var a, b, c, d := n / 10, n / 100, n / 1000, n / 10000;
    assert b == a / 10 && c == b / 10 && d == c / 10;
    assert DropDigits(a, 4) == DropDigits(b, 3) == DropDigits(c, 2) == DropDigits(d, 1) == d / 10;
  }

  /**
   The text printed so far, in reverse: first the decimals, then the point, then the whole digits, while `dVal` holds
   what is still to be printed.
   */
  ghost predicate Printed(text: string, i: int, dVal: u64, amount: u64) {
    if i <= 4 then 0 <= i && text == LowDigits(amount, i) && dVal == DropDigits(amount, i)
    else
      && 6 <= i == |text| && text[i - 6..] == "." + LowDigits(amount, 5)
      && var whole, q := text[..i - 6], amount / LUNA_PER_NIM;
         if dVal == 0 && i >= 7 then whole == Numeral(q) else Numeral(dVal) + whole == Numeral(q)
  }

  lemma PrintDigit(text: string, i: int, dVal: u64, amount: u64)
    requires Printed(text, i, dVal, amount) && (dVal > 0 || i < 7) && i != 4
    ensures Printed([DigitChar(dVal % 10)] + text, i + 1, dVal / 10, amount)
  {
    if i < 4 {
      NextLowDigit(amount, i);
    } else {
      var whole, c := text[..i - 6], DigitChar(dVal % 10);
      assert ([c] + text)[i + 1 - 6..] == text[i - 6..] && ([c] + text)[..i + 1 - 6] == [c] + whole;
      assert Numeral(dVal) == (if dVal < 10 then "" else Numeral(dVal / 10)) + [c];
    }
  }

  lemma PrintLastDecimal(text: string, dVal: u64, amount: u64)
    requires Printed(text, 4, dVal, amount)
    ensures Printed("." + ([DigitChar(dVal % 10)] + text), 6, dVal / 10, amount)
  {
    NextLowDigit(amount, 4);
    DropFive(amount);
    var t := "." + ([DigitChar(dVal % 10)] + text);
    assert t[0..] == t && Numeral(dVal / 10) + t[..0] == Numeral(dVal / 10);
  }

  /** There is room for every digit. */
  lemma PrintedLength(text: string, i: int, dVal: u64, amount: u64)
    requires Printed(text, i, dVal, amount) && amount <= MAX_SAFE_LUNA_AMOUNT && (dVal > 0 || i < 7)
    ensures i < AMOUNT_LENGTH - 1
  {
    assert Pow10(11) == 10 * (10 * (10 * (10 * (10 * (10 * Pow10(5))))));
    FivePlaces();
    NumeralLength(amount / LUNA_PER_NIM, 11);
    NumeralDigits(dVal);
  }

  /** One round of the first loop: a digit, and behind the fifth one the decimal point. */
  method PrintRound(amount: u64, buffer: array<char>, i0: int, dVal0: u64) returns (i: int, dVal: u64)
    requires amount <= MAX_SAFE_LUNA_AMOUNT && buffer.Length == AMOUNT_LENGTH
    requires 0 <= i0 <= AMOUNT_LENGTH - 1 && Printed(Reversed(buffer[..i0]), i0, dVal0, amount)
    requires dVal0 > 0 || i0 < 7
    modifies buffer
    ensures i0 < i <= AMOUNT_LENGTH - 1 && Printed(Reversed(buffer[..i]), i, dVal, amount) && dVal == dVal0 / 10
  {
    i, dVal := i0, dVal0;
    ghost var text := buffer[..i];
    PrintedLength(Reversed(text), i, dVal, amount);
    ghost var digit := DigitChar(dVal % 10);
    if dVal > 0 {
      buffer[i] := DigitChar(dVal % 10);
      dVal := dVal / 10;
    } else {
      buffer[i] := '0';
    }
    ReversedSnoc(text, digit);
    assert buffer[..i + 1] == text + [digit];
    if i == 4 {
      i := i + 1;
      buffer[i] := '.';
      PrintLastDecimal(Reversed(text), dVal0, amount);
      ReversedSnoc(text + [digit], '.');
      assert buffer[..i + 1] == text + [digit] + ".";
    } else {
      PrintDigit(Reversed(text), i, dVal0, amount);
    }
    assert i < AMOUNT_LENGTH; // the assertion in the source
    i := i + 1;
  }

  /** The first loop: digits from the least significant one on, into a buffer of 18 characters. */
  method PrintReversed(amount: u64, buffer: array<char>) returns (i: int)
    requires amount <= MAX_SAFE_LUNA_AMOUNT && buffer.Length == AMOUNT_LENGTH
    modifies buffer
    ensures 7 <= i < AMOUNT_LENGTH && Reversed(buffer[..i]) == RawText(amount)
  {
    var dVal: u64 := amount;
    i := 0;
    while dVal > 0 || i < 7
      invariant 0 <= i <= AMOUNT_LENGTH - 1
      invariant Printed(Reversed(buffer[..i]), i, dVal, amount)
      decreases dVal, 7 - i
    {
      i, dVal := PrintRound(amount, buffer, i, dVal);
    }
    ghost var t := Reversed(buffer[..i]);
    assert t == t[..i - 6] + t[i - 6..];
  }

  lemma {:induction false} StripDecimals(front: string, decimals: string)
    ensures StripZeros(front + "." + decimals) == front + "." + StripZeros(decimals)
  {
    var s := front + "." + decimals;
    if decimals == "" {
      assert s == front + ".";
    } else {
      var init := decimals[..|decimals| - 1];
      assert s[..|s| - 1] == front + "." + init;
      StripDecimals(front, init);
    }
  }

  function StripPoint(s: string): string {
    if s != "" && s[|s| - 1] == '.' then s[..|s| - 1] else s
  }

  /** Stripping zeros and then a point at the end gives the canonical text. */
  lemma StripRawText(amount: nat)
    ensures StripPoint(StripZeros(RawText(amount))) == AmountText(amount)
  {
    var whole, decimals := Numeral(amount / LUNA_PER_NIM), LowDigits(amount, 5);
    StripDecimals(whole, decimals);
    LowFive(amount);
    StripZerosValue(decimals);
    PointStripped(whole, StripZeros(decimals));
  }

  lemma LowFive(amount: nat)
    ensures AllDigits(LowDigits(amount, 5)) && Value(LowDigits(amount, 5)) == amount % LUNA_PER_NIM
  {
    FivePlaces();
    LowDigitsValue(amount, 5);
  }

  lemma PointStripped(whole: string, decimals: string)
    requires AllDigits(decimals)
    ensures StripPoint(whole + "." + decimals) == whole + if decimals == "" then "" else "." + decimals
  {
    var s := whole + "." + decimals;
    if decimals == "" {
      assert s[..|s| - 1] == whole;
    } else {
      assert s[|s| - 1] == decimals[|decimals| - 1];
    }
  }

  function WithTicker(text: string, ticker: Option<string>): string {
    if ticker.Some? then text + " " + ticker.value else text
  }

  lemma AmountLength(amount: nat)
    requires amount <= MAX_SAFE_LUNA_AMOUNT
    ensures 1 <= |AmountText(amount)| < AMOUNT_LENGTH
  {
    assert Pow10(11) == 10 * (10 * (10 * (10 * (10 * (10 * Pow10(5))))));
    FivePlaces();
    NumeralLength(amount / LUNA_PER_NIM, 11);
    NumeralDigits(amount / LUNA_PER_NIM);
  }

  /** The second and third loop: reverses the buffer into `out` and drops superfluous zeros and the point. */
  method ReverseAndStrip(buffer: array<char>, i: int, out: array<char>, ghost amount: u64) returns (j: int)
    requires buffer != out && 0 <= i <= buffer.Length && i <= out.Length && Reversed(buffer[..i]) == RawText(amount)
    modifies out
    ensures 0 <= j <= i && out[..j] == AmountText(amount)
    ensures forall k :: i <= k < out.Length ==> out[k] == old(out[k])
  {
    j := 0;
    while j < i
      invariant 0 <= j <= i
      invariant forall k :: 0 <= k < j ==> out[k] == Reversed(buffer[..i])[k]
      invariant forall k :: i <= k < out.Length ==> out[k] == old(out[k])
    {
      ReversedAt(buffer[..i], j);
      out[j] := buffer[i - 1 - j];
      j := j + 1;
    }
    assert out[..j] == RawText(amount);
    j := StripEnd(out, j);
    StripRawText(amount);
  }

  /** The third loop: steps back over zeros at the end, and over a point behind them. */
  method StripEnd(out: array<char>, i: int) returns (j: int)
    requires 0 <= i <= out.Length
    ensures 0 <= j <= i && out[..j] == StripPoint(StripZeros(out[..i]))
  {
    j := i;
    while j > 0
      invariant 0 <= j <= i && StripZeros(out[..j]) == StripZeros(out[..i])
    {
      assert out[..j][..j - 1] == out[..j - 1];
      if out[j - 1] != '0' {
        break;
      }
      j := j - 1;
    }
    assert out[..j] == StripZeros(out[..i]);
    if j > 0 && out[j - 1] == '.' {
      assert out[..j][..j - 1] == out[..j - 1];
      j := j - 1;
    }
  }

  /** Prints an amount, a ticker if there is one, and a terminator. */
  method ParseAmount(amount: u64, ticker: Option<string>, out: array<char>) returns (r: Result<()>)
    requires out.Length == AMOUNT_WITH_TICKER_LENGTH
    modifies out
    ensures r.Ok? <==> && amount <= MAX_SAFE_LUNA_AMOUNT
                       && (ticker.Some? ==> |WithTicker(AmountText(amount), ticker)| < AMOUNT_WITH_TICKER_LENGTH)
    ensures r.Err? ==> r.error == IncorrectData
    ensures r.Ok? ==> var text := WithTicker(AmountText(amount), ticker);
                      |text| < AMOUNT_WITH_TICKER_LENGTH && out[..|text|] == text && out[|text|] == '\0'
  {
    if amount > MAX_SAFE_LUNA_AMOUNT {
      return Err(IncorrectData);
    }
    var buffer := new char[AMOUNT_LENGTH];
    var i := PrintReversed(amount, buffer);
    var j := ReverseAndStrip(buffer, i, out, amount);
    AmountLength(amount);
    r := AppendTicker(AmountText(amount), j, ticker, out);
  }

  /** Writes the ticker, if there is one and it fits, and a terminator behind a text of length `j`. */
  method AppendTicker(ghost text: string, j: int, ticker: Option<string>, out: array<char>) returns (r: Result<()>)
    requires out.Length == AMOUNT_WITH_TICKER_LENGTH && 0 <= j == |text| < AMOUNT_LENGTH && out[..j] == text
    modifies out
    ensures r == if ticker.Some? && |WithTicker(text, ticker)| >= AMOUNT_WITH_TICKER_LENGTH
                 then Err(IncorrectData) else Ok(())
    ensures r.Ok? ==> && |WithTicker(text, ticker)| < AMOUNT_WITH_TICKER_LENGTH
                      && out[..|WithTicker(text, ticker)|] == WithTicker(text, ticker)
                      && out[|WithTicker(text, ticker)|] == '\0'
  {
    ghost var orig := out[..];
    if ticker.Some? {
      var tickerLength := |ticker.value|;
      if j + 1 + tickerLength + 1 > AMOUNT_WITH_TICKER_LENGTH {
        return Err(IncorrectData);
      }
      Append(out, orig, text, j, " ");
      Append(out, orig, text + " ", j + 1, ticker.value);
      Append(out, orig, text + " " + ticker.value, j + 1 + tickerLength, "\0");
    } else {
      Append(out, orig, text, j, "\0");
    }
    return Ok(());
  }

  // ---------------------------------------------------------------------------------------------------------------
  // Amounts with the ticker of the app

  /** What is displayed for an amount. */
  function NimText(amount: nat): string {
    AmountText(amount) + " NIM"
  }

  /** The struct member that `parse_amount(amount, "NIM", ...)` fills. */
  method NimField(amount: u64) returns (r: Result<string>)
    ensures r == if amount <= MAX_SAFE_LUNA_AMOUNT then Ok(NimText(amount)) else Err(IncorrectData)
  {
    var out := new char[AMOUNT_WITH_TICKER_LENGTH];
    var printed := ParseAmount(amount, Some("NIM"), out);
    if printed.Err? {
      if amount <= MAX_SAFE_LUNA_AMOUNT {
        AmountLength(amount);
      }
      return Err(printed.error);
    }
    NoTerminator(amount);
    assert WithTicker(AmountText(amount), Some("NIM")) == NimText(amount);
    CStringOf(NimText(amount), out[..]);
    return Ok(CString(out[..]));
  }

  lemma NoTerminator(amount: nat)
    ensures '\0' !in NimText(amount)
  {
    NumeralDigits(amount / LUNA_PER_NIM);
    LowFive(amount);
    StripZerosValue(LowDigits(amount, 5));
    JoinedText(Numeral(amount / LUNA_PER_NIM), StripZeros(LowDigits(amount, 5)));
  }

  lemma JoinedText(whole: string, decimals: string)
    requires '\0' !in whole && AllDigits(decimals)
    ensures '\0' !in whole + " NIM" && '\0' !in whole + ("." + decimals) + " NIM"
  {
  }

  /** The comparisons of displayed amounts are comparisons of amounts; in particular "0 NIM" is displayed for 0 only. */
  lemma NimTextInjective(a: nat, b: nat)
    ensures NimText(a) == NimText(b) <==> a == b
    ensures NimText(a) == "0 NIM" <==> a == 0
  {
    AmountInjective(a, b);
    AmountInjective(a, 0);
    assert NimText(a)[..|AmountText(a)|] == AmountText(a) && NimText(b)[..|AmountText(b)|] == AmountText(b);
    assert AmountText(0) == "0" && NimText(0) == "0 NIM";
    assert NimText(0)[..1] == AmountText(0);
  }

  /**
   An amount of Luna in NIM, of which there are 100000 in one: the digits before the point, and up to five behind it.
   */
  lemma NimTextExact(amount: nat) returns (whole: string, decimals: string)
    ensures NimText(amount) == whole + (if decimals == "" then "" else "." + decimals) + " NIM"
    ensures IsCanonical(whole) && AllDigits(decimals) && |decimals| <= 5
    ensures decimals != "" ==> decimals[|decimals| - 1] != '0'
    ensures amount == 100_000 * Value(whole) + [100_000, 10_000, 1_000, 100, 10, 1][|decimals|] * Value(decimals)
  {
    hide LowDigits, StripZeros, Pow10, Value, Numeral;
    whole, decimals := Numeral(amount / LUNA_PER_NIM), StripZeros(LowDigits(amount, 5));
    NumeralRoundTrip(amount / LUNA_PER_NIM);
    LowFive(amount);
    StripZerosValue(LowDigits(amount, 5));
    PlacesLeft(|decimals|);
    QuotientBounds(amount, LUNA_PER_NIM);
  }

  lemma PlacesLeft(n: nat)
    requires n <= 5
    ensures Pow10(5 - n) == [100_000, 10_000, 1_000, 100, 10, 1][n]
  {
    assert Pow10(5) == 10 * (10 * (10 * (10 * (10 * Pow10(0)))));
    assert Pow10(3) == 10 * (10 * (10 * Pow10(0)));
  }
}
