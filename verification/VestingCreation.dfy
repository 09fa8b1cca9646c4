/** `parse_vesting_creation_data`: the recipient data of a vesting contract creation and what is displayed of it. */
module VestingCreation {
  import opened AddressText
  import opened Amount
  import opened Arithmetic
  import opened Cursors
  import opened Decimal
  import opened Machine
  import opened ParsedTransaction
  import opened VestingSchedule
  import opened Wire

  /** The three forms in which the terms of a contract can be given. */
  datatype Terms =
    | Short(stepBlocks: u32)
    | Medium(start: u32, stepBlocks: u32, stepAmount: u64)
    | Full(start: u32, stepBlocks: u32, stepAmount: u64, totalLocked: u64)

  /** What is not given has a default: start at block 0, and one step for the whole amount. */
  function ParamsOf(terms: Terms, txAmount: u64): Params {
    match terms
    case Short(stepBlocks) => Params(0, stepBlocks, txAmount, txAmount)
    case Medium(start, stepBlocks, stepAmount) => Params(start, stepBlocks, stepAmount, txAmount)
    case Full(start, stepBlocks, stepAmount, totalLocked) => Params(start, stepBlocks, stepAmount, totalLocked)
  }

  function PutTerms(terms: Terms): Bytes {
    match terms
    case Short(stepBlocks) => PutU32(stepBlocks)
    case Medium(start, stepBlocks, stepAmount) => PutU32(start) + (PutU32(stepBlocks) + (PutU64(stepAmount) + []))
    case Full(start, stepBlocks, stepAmount, totalLocked) =>
      PutU32(start) + (PutU32(stepBlocks) + (PutU64(stepAmount) + (PutU64(totalLocked) + [])))
  }

  /** The form is recognised by the length. */
  function TakeTerms(s: Bytes): Result<Terms> {
    if |s| == 4 then
      var stepBlocks :- TakeU32(s).OrElse(Read);
      Ok(Short(stepBlocks.value))
    else
      var start :- TakeU32(s).OrElse(Read);
      var stepBlocks :- TakeU32(start.rest).OrElse(Read);
      var stepAmount :- TakeU64(stepBlocks.rest).OrElse(Read);
      if |stepAmount.rest| == 8 then
        var totalLocked :- TakeU64(stepAmount.rest).OrElse(Read);
        Ok(Full(start.value, stepBlocks.value, stepAmount.value, totalLocked.value))
      else if stepAmount.rest != [] then
        Err(InvalidLength)
      else
        Ok(Medium(start.value, stepBlocks.value, stepAmount.value))
  }

  function PutVesting(owner: Address, terms: Terms): Bytes {
    owner + PutTerms(terms)
  }

  lemma TakePutTerms(terms: Terms)
    ensures TakeTerms(PutTerms(terms)) == Ok(terms)
  {
    match terms
    case Short(stepBlocks) =>
      TakePutU32(stepBlocks, []);
      assert PutU32(stepBlocks) + [] == PutU32(stepBlocks);
    case Medium(start, stepBlocks, stepAmount) =>
      TakePutU32(start, PutU32(stepBlocks) + (PutU64(stepAmount) + []));
      TakePutU32(stepBlocks, PutU64(stepAmount) + []);
      TakePutU64(stepAmount, []);
    case Full(start, stepBlocks, stepAmount, totalLocked) =>
      TakePutU32(start, PutU32(stepBlocks) + (PutU64(stepAmount) + (PutU64(totalLocked) + [])));
      TakePutU32(stepBlocks, PutU64(stepAmount) + (PutU64(totalLocked) + []));
      TakePutU64(stepAmount, PutU64(totalLocked) + []);
      TakePutU64(totalLocked, []);
  }

  lemma PutTakenTerms(s: Bytes)
    requires TakeTerms(s).Ok?
    ensures PutTerms(TakeTerms(s).value) == s
  {
    PutTakenU32(s);
    var start := TakeU32(s).value;
    if |s| == 4 {
      assert start.rest == [];
    } else {
      PutTakenU32(start.rest);
      var stepBlocks := TakeU32(start.rest).value;
      PutTakenU64(stepBlocks.rest);
      var stepAmount := TakeU64(stepBlocks.rest).value;
      if |stepAmount.rest| == 8 {
        PutTakenU64(stepAmount.rest);
        assert TakeU64(stepAmount.rest).value.rest == [];
      }
    }
  }

  /** "1 block", "2 blocks"; for one block the plural letter is a terminator. */
  function BlocksText(n: u32): string {
    Numeral(n) + if n != 1 then " blocks" else " block"
  }

  /** All amounts of a schedule can be printed. */
  predicate AmountsPrintable(d: Schedule) {
    && d.stepAmount <= MAX_SAFE_LUNA_AMOUNT && d.firstStepAmount <= MAX_SAFE_LUNA_AMOUNT
    && d.lastStepAmount <= MAX_SAFE_LUNA_AMOUNT && d.preVested <= MAX_SAFE_LUNA_AMOUNT
  }

  function DisplayOf(owner: Address, sender: Address, d: Schedule): VestingTx {
    VestingTx(
      owner == sender, d.IsMultiStep(), TextOf(owner),
      Numeral(d.startBlock), BlocksText(d.period), Numeral(d.stepCount), BlocksText(d.stepBlockCount),
      BlocksText(d.firstStepBlockCount), Numeral(d.firstStepBlock),
      NimText(d.stepAmount), NimText(d.firstStepAmount), NimText(d.lastStepAmount), NimText(d.preVested))
  }

  /** The outcome of parsing, with the errors in the order in which they are detected. */
  function Outcome(version: u8, data: Bytes, sender: Address, senderType: u8, txAmount: u64): Result<VestingTx> {
    if version != TRANSACTION_VERSION_LEGACY then Err(NotSupported)
    else
      var owner :- TakeAddress(data).OrElse(Read);
      if owner.value == sender && senderType != ACCOUNT_TYPE_BASIC then Err(IncorrectData)
      else
        var terms :- TakeTerms(owner.rest);
        var d :- ScheduleOf(ParamsOf(terms, txAmount), txAmount);
        if AmountsPrintable(d) then Ok(DisplayOf(owner.value, sender, d)) else Err(IncorrectData)
  }

  /** With a printable transaction amount only the step amount can be too large to be printed. */
  lemma OnlyStepAmountMatters(p: Params, tx: u64, d: Schedule)
    requires ScheduleOf(p, tx) == Ok(d) && tx <= MAX_SAFE_LUNA_AMOUNT
    ensures AmountsPrintable(d) <==> p.Immediate() || p.stepAmount <= MAX_SAFE_LUNA_AMOUNT
  {
    if !p.Immediate() {
      StepAmounts(p, tx, d);
    }
  }

  /** Serialised terms of representable contracts are accepted and displayed, but for a contract as owner. */
  lemma OutcomeOf(owner: Address, terms: Terms, sender: Address, senderType: u8, txAmount: u64)
    requires owner == sender ==> senderType == ACCOUNT_TYPE_BASIC
    requires ParamsOf(terms, txAmount).Translatable() && txAmount <= MAX_SAFE_LUNA_AMOUNT
    requires ParamsOf(terms, txAmount).Immediate() || ParamsOf(terms, txAmount).stepAmount <= MAX_SAFE_LUNA_AMOUNT
    ensures Outcome(TRANSACTION_VERSION_LEGACY, PutVesting(owner, terms), sender, senderType, txAmount)
         == Ok(DisplayOf(owner, sender, ScheduleOf(ParamsOf(terms, txAmount), txAmount).value))
  {
    TakePutAddress(owner, PutTerms(terms));
    TakePutTerms(terms);
    var p := ParamsOf(terms, txAmount);
    OnlyStepAmountMatters(p, txAmount, ScheduleOf(p, txAmount).value);
  }

  /** Nothing but the serialised terms of representable contracts is accepted. */
  lemma AcceptedData(version: u8, data: Bytes, sender: Address, senderType: u8, txAmount: u64)
    returns (owner: Address, terms: Terms)
    requires txAmount <= MAX_SAFE_LUNA_AMOUNT && Outcome(version, data, sender, senderType, txAmount).Ok?
    ensures version == TRANSACTION_VERSION_LEGACY && data == PutVesting(owner, terms)
    ensures owner == sender ==> senderType == ACCOUNT_TYPE_BASIC
    ensures var p := ParamsOf(terms, txAmount);
            p.Translatable() && (p.Immediate() || p.stepAmount <= MAX_SAFE_LUNA_AMOUNT)
  {
    PutTakenAddress(data);
    owner := TakeAddress(data).value.value;
    PutTakenTerms(TakeAddress(data).value.rest);
    terms := TakeTerms(TakeAddress(data).value.rest).value;
    var p := ParamsOf(terms, txAmount);
    OnlyStepAmountMatters(p, txAmount, ScheduleOf(p, txAmount).value);
  }

  // ---------------------------------------------------------------------------------------------------------------
  // The forms, byte by byte

  /** What is made of the bytes of the terms. */
  function TermsOutcome(owner: Address, s: Bytes, sender: Address, txAmount: u64): Result<VestingTx> {
    var terms :- TakeTerms(s);
    var d :- ScheduleOf(ParamsOf(terms, txAmount), txAmount);
    if AmountsPrintable(d) then Ok(DisplayOf(owner, sender, d)) else Err(IncorrectData)
  }

  lemma OutcomeOfBytes(version: u8, owner: Address, s: Bytes, sender: Address, senderType: u8, txAmount: u64)
    ensures Outcome(version, owner + s, sender, senderType, txAmount)
         == if version != 0 then Err(NotSupported)
            else if owner == sender && senderType != 0 then Err(IncorrectData)
            else TermsOutcome(owner, s, sender, txAmount)
  {
    TakePutAddress(owner, s);
  }

  /** Four bytes stand for a contract that starts at block 0 and releases everything with its only step. */
  lemma ShortForm(version: u8, owner: Address, b: u32, sender: Address, senderType: u8, txAmount: u64)
    ensures Outcome(version, owner + PutU32(b), sender, senderType, txAmount)
         == Outcome(version, owner + (PutU32(0) + (PutU32(b) + (PutU64(txAmount) + PutU64(txAmount)))), sender,
                    senderType, txAmount)
  {
    var short, full := PutTerms(Short(b)), PutTerms(Full(0, b, txAmount, txAmount));
    assert full == PutU32(0) + (PutU32(b) + (PutU64(txAmount) + PutU64(txAmount)));
    SameParams(version, owner, Short(b), Full(0, b, txAmount, txAmount), sender, senderType, txAmount);
  }

  lemma SameParams(version: u8, owner: Address, a: Terms, b: Terms, sender: Address, senderType: u8, txAmount: u64)
    requires ParamsOf(a, txAmount) == ParamsOf(b, txAmount)
    ensures Outcome(version, owner + PutTerms(a), sender, senderType, txAmount)
         == Outcome(version, owner + PutTerms(b), sender, senderType, txAmount)
  {
    hide PutTerms, TakeTerms, Outcome, ScheduleOf, AmountsPrintable, DisplayOf;
    OutcomeOfBytes(version, owner, PutTerms(a), sender, senderType, txAmount);
    OutcomeOfBytes(version, owner, PutTerms(b), sender, senderType, txAmount);
    TakePutTerms(a);
    TakePutTerms(b);
  }

  /** Of sixteen bytes the locked amount is the amount of the transaction. */
  lemma MediumForm(version: u8, owner: Address, s: Bytes, sender: Address, senderType: u8, txAmount: u64)
    requires |s| == 16
    ensures Outcome(version, owner + s, sender, senderType, txAmount)
         == Outcome(version, owner + (s + PutU64(txAmount)), sender, senderType, txAmount)
  {
    hide Outcome, PutU32, PutU64, U32At, U64At;
    NumbersOfTerms(s);
    var start, blocks, amount := U32At(s, 0), U32At(s, 4), U64At(s, 8);
    var medium, full := Medium(start, blocks, amount), Full(start, blocks, amount, txAmount);
    assert s == s[..16] == PutTerms(medium);
    FullBehindMedium(start, blocks, amount, txAmount);
    SameParams(version, owner, medium, full, sender, senderType, txAmount);
  }

  lemma FullBehindMedium(start: u32, blocks: u32, amount: u64, totalLocked: u64)
    ensures PutTerms(Full(start, blocks, amount, totalLocked))
         == PutTerms(Medium(start, blocks, amount)) + PutU64(totalLocked)
  {
    hide PutU32, PutU64;
    AppendedLast(PutU32(start), PutU32(blocks), PutU64(amount), PutU64(totalLocked));
  }

  lemma AppendedLast(a: Bytes, b: Bytes, c: Bytes, d: Bytes)
    ensures a + (b + (c + (d + []))) == a + (b + (c + [])) + d
  {
    assert c + (d + []) == (c + []) + d;
    assert b + ((c + []) + d) == (b + (c + [])) + d;
  }

  /** The terms behind the owner are a row of numbers. */
  lemma NumbersOfTerms(s: Bytes)
    requires |s| >= 16
    ensures s[..16] == PutU32(U32At(s, 0)) + (PutU32(U32At(s, 4)) + PutU64(U64At(s, 8)))
  {
    NumbersAt(s);
    NumbersAt(s[4..]);
    NumbersAt(s[8..]);
    NumbersInside(s, 4);
    NumbersInside(s, 8);
    BigEndianRoundTrip(s[..4]);
    BigEndianRoundTrip(s[4..][..4]);
    BigEndianRoundTrip(s[8..][..8]);
    assert s[..16] == s[..4] + (s[4..][..4] + s[8..][..8]);
  }

  /** What the bytes of any form stand for, with the amount of the transaction for amounts that are not given. */
  function ParamsAt(s: Bytes, txAmount: u64): Params
    requires |s| == 4 || |s| == 16 || |s| == 24
  {
    if |s| == 4 then Params(0, U32At(s, 0), txAmount, txAmount)
    else Params(U32At(s, 0), U32At(s, 4), U64At(s, 8), if |s| == 16 then txAmount else U64At(s, 16))
  }

  lemma TermsAt(s: Bytes, txAmount: u64)
    ensures TakeTerms(s).Ok? <==> |s| == 4 || |s| == 16 || |s| == 24
    ensures TakeTerms(s).Ok? ==> ParamsOf(TakeTerms(s).value, txAmount) == ParamsAt(s, txAmount)
  {
    hide BigEndian, ToBytes, U32At, U64At;
    NumbersAt(s);
    if |s| >= 16 {
      NumbersAt(s[4..]);
      NumbersAt(s[8..]);
      NumbersInside(s, 4);
      NumbersInside(s, 8);
      assert s[4..][4..] == s[8..] && s[8..][8..] == s[16..];
      NumbersAt(s[16..]);
      NumbersInside(s, 16);
    }
  }

  /** A contract in the short form is shown with its only block, and nothing of it is pre-vested. */
  lemma ShortFormShown(owner: Address, b: u32, sender: Address, senderType: u8, txAmount: u64)
    requires 0 < b && 0 < txAmount <= 9007199254740991 && (owner == sender ==> senderType == 0)
    ensures var outcome := Outcome(0, owner + PutU32(b), sender, senderType, txAmount);
            && outcome.Ok? && !outcome.value.isMultiStep && outcome.value.firstStepBlock == Numeral(b)
            && outcome.value.preVestedAmount == "0 NIM"
  {
    hide NimText;
    var p := ParamsOf(Short(b), txAmount);
    OneStep(b, txAmount);
    OutcomeOf(owner, Short(b), sender, senderType, txAmount);
    NimTextInjective(0, 0);
  }

  lemma OneStep(b: u32, txAmount: u64)
    requires b > 0 && txAmount > 0
    ensures var p := Params(0, b, txAmount, txAmount);
            p.Translatable() && !p.Immediate()
            && var d := ScheduleOf(p, txAmount).value; d.stepCount == 1 && d.firstStepBlock == b && d.preVested == 0
  {
    var p := Params(0, b, txAmount, txAmount);
    DivModUnique(txAmount, txAmount, 1, 0);
    DivModUnique(0, txAmount, 0, 0);
    assert p.AllSteps() == 1 && p.ExcessSteps(txAmount) == 0;
    assert 1 * b == b;
  }

  // ---------------------------------------------------------------------------------------------------------------
  // The parser

  /** What follows the first three parameters: nothing, or the locked amount. */
  method ReadTotalLocked(cursor: Cursor, txAmount: u64) returns (r: Result<u64>)
    requires cursor.Valid()
    modifies cursor
    ensures r == if |old(cursor.Rest())| == 8 then Ok(TakeU64(old(cursor.Rest())).value.value)
                 else if old(cursor.Rest()) != [] then Err(InvalidLength) else Ok(txAmount)
  {
    var totalLocked: u64 := txAmount;
    if cursor.length == 8 {
      var ok;
      ok, totalLocked := cursor.ReadU64();
      if !ok {
        return Err(Read);
      }
    }
    if cursor.length != 0 {
      return Err(InvalidLength);
    }
    return Ok(totalLocked);
  }

  method ReadTerms(cursor: Cursor, txAmount: u64) returns (r: Result<Params>)
    requires cursor.Valid()
    modifies cursor
    ensures r == match TakeTerms(old(cursor.Rest()))
                 case Ok(terms) => Ok(ParamsOf(terms, txAmount))
                 case Err(e) => Err(e)
  {
    var ok, start: u32, stepBlocks: u32, stepAmount: u64;
    if cursor.length == 4 {
      ok, stepBlocks := cursor.ReadU32();
      if !ok {
        return Err(Read);
      }
      assert cursor.Rest() == [];
      return Ok(Params(0, stepBlocks, txAmount, txAmount));
    }
    ok, start := cursor.ReadU32();
    if !ok {
      return Err(Read);
    }
    ok, stepBlocks := cursor.ReadU32();
    if !ok {
      return Err(Read);
    }
    ok, stepAmount := cursor.ReadU64();
    if !ok {
      return Err(Read);
    }
    var totalLocked :- ReadTotalLocked(cursor, txAmount);
    return Ok(Params(start, stepBlocks, stepAmount, totalLocked));
  }

  /** Prints a schedule to the struct, if its amounts can be printed. */
  method PrintSchedule(d: Schedule, out: ParsedTx) returns (r: Result<()>)
    modifies out`vesting
    ensures r == if AmountsPrintable(d) then Ok(()) else Err(IncorrectData)
    ensures r.Ok? ==> forall owner: Address, sender: Address ::
              old(out.vesting).ownerAddress == TextOf(owner)
              && old(out.vesting).isOwnerAddressSenderAddress == (owner == sender)
              ==> out.vesting == DisplayOf(owner, sender, d)
  {
    out.vesting := out.vesting.(
      isMultiStep := d.stepCount > 1,
      startBlock := Numeral(d.startBlock), period := BlocksText(d.period),
      stepCount := Numeral(d.stepCount), stepBlockCount := BlocksText(d.stepBlockCount),
      firstStepBlockCount := BlocksText(d.firstStepBlockCount), firstStepBlock := Numeral(d.firstStepBlock));
    var stepAmount :- NimField(d.stepAmount);
    var firstStepAmount :- NimField(d.firstStepAmount);
    var lastStepAmount :- NimField(d.lastStepAmount);
    var preVestedAmount :- NimField(d.preVested);
    out.vesting := out.vesting.(
      stepAmount := stepAmount, firstStepAmount := firstStepAmount,
      lastStepAmount := lastStepAmount, preVestedAmount := preVestedAmount);
    return Ok(());
  }

  method ParseVestingCreationData(version: u8, cursor: Cursor, sender: Address, senderType: u8, txAmount: u64,
                                  out: ParsedTx)
    returns (r: Result<()>)
    requires cursor.Valid()
    modifies cursor, out`vesting
    ensures var outcome := Outcome(version, old(cursor.Rest()), sender, senderType, txAmount);
            if outcome.Ok? then r == Ok(()) && out.vesting == outcome.value else r == Err(outcome.error)
  {
    if version != TRANSACTION_VERSION_LEGACY {
      return Err(NotSupported);
    }
    var ok, owner := cursor.ReadAddress();
    if !ok {
      return Err(Read);
    }
    var ownerText := AddressField(owner);
    out.vesting := out.vesting.(ownerAddress := ownerText, isOwnerAddressSenderAddress := owner == sender);
    if out.vesting.isOwnerAddressSenderAddress && senderType != ACCOUNT_TYPE_BASIC {
      return Err(IncorrectData);
    }
    var params :- ReadTerms(cursor, txAmount);
    var schedule :- Translate(params, txAmount);
    r := PrintSchedule(schedule, out);
  }
}
