/**
 The screen for the creation of a vesting contract: which entries are shown, how a reader understands them, and why the
 reader is told exactly how the contract releases its funds although redundant entries are left out.
 */
module VestingScreen {
  import opened AddressText
  import opened Amount
  import opened Arithmetic
  import opened Decimal
  import opened Machine
  import opened ParsedTransaction
  import Transaction
  import opened TransactionScreen
  import opened VestingCreation
  import opened VestingSchedule

  // ---------------------------------------------------------------------------------------------------------------
  // The entries

  predicate HasOwnerAddressEntry(t: VestingTx) {
    !t.isOwnerAddressSenderAddress
  }

  predicate HasSingleVestingBlockEntry(t: VestingTx) {
    !t.isMultiStep
  }

  predicate HasStartAndPeriodAndStepCountAndStepDurationEntries(t: VestingTx) {
    t.isMultiStep
  }

  predicate HasFirstStepDurationEntry(t: VestingTx) {
    t.isMultiStep && t.firstStepBlockCount != t.stepBlockCount
  }

  predicate HasStepAmountEntry(t: VestingTx) {
    && t.isMultiStep
    && !(t.stepCount == "2" && t.firstStepAmount != t.stepAmount && t.lastStepAmount != t.stepAmount)
  }

  predicate HasFirstStepAmountEntry(t: VestingTx) {
    t.isMultiStep && t.firstStepAmount != t.stepAmount
  }

  predicate HasLastStepAmountEntry(t: VestingTx) {
    t.isMultiStep && t.lastStepAmount != t.stepAmount
  }

  predicate HasPreVestedAmountEntry(t: VestingTx) {
    t.preVestedAmount != "0 NIM"
  }

  datatype Screen = Screen(
    amount: Option<string>, owner: Option<string>, vestedAtBlock: Option<string>,
    startBlock: Option<string>, period: Option<string>, steps: Option<string>, blocksPerStep: Option<string>,
    firstStepDuration: Option<string>, vestedPerStep: Option<string>, firstStep: Option<string>,
    lastStep: Option<string>, preVested: Option<string>)

  function ScreenOf(p: Parsed): Screen {
    var t := p.vesting;
    var several := HasStartAndPeriodAndStepCountAndStepDurationEntries(t);
    Screen(
      Entry(HasAmountEntry(p), p.value), Entry(HasOwnerAddressEntry(t), t.ownerAddress),
      Entry(HasSingleVestingBlockEntry(t), t.firstStepBlock),
      Entry(several, t.startBlock), Entry(several, t.period), Entry(several, t.stepCount),
      Entry(several, t.stepBlockCount), Entry(HasFirstStepDurationEntry(t), t.firstStepBlockCount),
      Entry(HasStepAmountEntry(t), t.stepAmount), Entry(HasFirstStepAmountEntry(t), t.firstStepAmount),
      Entry(HasLastStepAmountEntry(t), t.lastStepAmount), Entry(HasPreVestedAmountEntry(t), t.preVestedAmount))
  }

  // ---------------------------------------------------------------------------------------------------------------
  // How a reader understands the entries

  /** What is released when: an amount from the outset and then one after each step. */
  datatype Plan = Plan(
    preVested: int, steps: nat, firstBlock: int, blocksPerStep: int, lastBlock: int,
    first: int, regular: int, last: int)
  {
    function StepBlock(k: nat): int {
      if k == steps then lastBlock else firstBlock + (k - 1) * blocksPerStep
    }

    function StepAmount(k: nat): int {
      if k == steps then last else if k == 1 then first else regular
    }

    /** The amounts of the first `k` steps that are over at height `h`. */
    function Unlocked(k: nat, h: int): int {
      if k == 0 then 0 else Unlocked(k - 1, h) + if h >= StepBlock(k) then StepAmount(k) else 0
    }

    function Released(h: int): int {
      preVested + Unlocked(steps, h)
    }
  }

  /** The digits in front. */
  function Digits(s: string): string {
    if s != "" && IsDigit(s[0]) then [s[0]] + Digits(s[1..]) else ""
  }

  /** The number of an entry such as "7" or "7 blocks", if it is shown. */
  function ReadNumber(entry: Option<string>, otherwise: int): int {
    if entry.Some? then Value(Digits(entry.value)) else otherwise
  }

  /** The amount of an entry such as "7 NIM", if it is shown. */
  function ReadNim(entry: Option<string>, otherwise: int): int {
    if entry.Some? && |entry.value| >= 4 then ReadAmount(entry.value[..|entry.value| - 4]) else otherwise
  }

  /**
   A missing amount is zero, except that the first and the last step are then like any other; so is a missing duration.
   The only block shown is that of the only step, with which everything is released.
   */
  function ReadScreen(s: Screen): Plan {
    var preVested := ReadNim(s.preVested, 0);
    if s.vestedAtBlock.Some? then
      var block, rest := ReadNumber(s.vestedAtBlock, 0), ReadNim(s.amount, 0) - preVested;
      Plan(preVested, 1, block, 0, block, rest, rest, rest)
    else
      var start, blocks, regular := ReadNumber(s.startBlock, 0), ReadNumber(s.blocksPerStep, 0),
                                    ReadNim(s.vestedPerStep, 0);
      var steps := ReadNumber(s.steps, 0);
      Plan(preVested, if steps >= 0 then steps else 0, start + ReadNumber(s.firstStepDuration, blocks), blocks,
           start + ReadNumber(s.period, 0), ReadNim(s.firstStep, regular), regular, ReadNim(s.lastStep, regular))
  }

  // ---------------------------------------------------------------------------------------------------------------
  // Texts and numbers

  lemma {:induction false} DigitsOf(n: string, rest: string)
    requires AllDigits(n) && (rest == "" || !IsDigit(rest[0]))
    ensures Digits(n + rest) == n
  {
    if n == "" {
      assert n + rest == rest;
    } else {
      assert (n + rest)[1..] == n[1..] + rest;
      DigitsOf(n[1..], rest);
    }
  }

  lemma ReadNumeral(n: nat, otherwise: int)
    ensures ReadNumber(Some(Numeral(n)), otherwise) == n
  {
    NumeralRoundTrip(n);
    assert Numeral(n) + "" == Numeral(n);
    DigitsOf(Numeral(n), "");
  }

  lemma ReadBlocks(n: u32, otherwise: int)
    ensures ReadNumber(Some(BlocksText(n)), otherwise) == n
  {
    NumeralRoundTrip(n);
    DigitsOf(Numeral(n), if n != 1 then " blocks" else " block");
  }

  lemma BlocksTextInjective(m: u32, n: u32)
    ensures BlocksText(m) == BlocksText(n) <==> m == n
  {
    ReadBlocks(m, 0);
    ReadBlocks(n, 0);
  }

  lemma ReadNimText(a: nat, otherwise: int)
    ensures ReadNim(Some(NimText(a)), otherwise) == a
  {
    AmountRoundTrip(a);
    assert NimText(a)[..|NimText(a)| - 4] == AmountText(a);
  }

  /** The texts of the struct are those of the schedule. */
  predicate Prints(t: VestingTx, d: Schedule) {
    && t.isMultiStep == d.IsMultiStep()
    && t.startBlock == Numeral(d.startBlock) && t.period == BlocksText(d.period) && t.stepCount == Numeral(d.stepCount)
    && t.stepBlockCount == BlocksText(d.stepBlockCount) && t.firstStepBlockCount == BlocksText(d.firstStepBlockCount)
    && t.firstStepBlock == Numeral(d.firstStepBlock) && t.stepAmount == NimText(d.stepAmount)
    && t.firstStepAmount == NimText(d.firstStepAmount) && t.lastStepAmount == NimText(d.lastStepAmount)
    && t.preVestedAmount == NimText(d.preVested)
  }

  /** With two irregular steps there is no regular one. */
  predicate NoRegularStep(d: Schedule) {
    d.stepCount == 2 && d.firstStepAmount != d.stepAmount && d.lastStepAmount != d.stepAmount
  }

  /**
   Every comparison of texts is the intended comparison of numbers. The entry for a single vesting block is also shown
   for a contract without any step.
   */
  lemma EntriesByNumbers(t: VestingTx, d: Schedule)
    requires Prints(t, d)
    ensures HasSingleVestingBlockEntry(t) <==> d.stepCount <= 1
    ensures HasStartAndPeriodAndStepCountAndStepDurationEntries(t) <==> d.stepCount >= 2
    ensures HasFirstStepDurationEntry(t) <==> d.stepCount >= 2 && d.firstStepBlockCount != d.stepBlockCount
    ensures HasStepAmountEntry(t) <==> d.stepCount >= 2 && !NoRegularStep(d)
    ensures HasFirstStepAmountEntry(t) <==> d.stepCount >= 2 && d.firstStepAmount != d.stepAmount
    ensures HasLastStepAmountEntry(t) <==> d.stepCount >= 2 && d.lastStepAmount != d.stepAmount
    ensures HasPreVestedAmountEntry(t) <==> d.preVested > 0
  {
    PrintedAs(d.stepCount, "2", 2);
    BlocksTextInjective(d.firstStepBlockCount, d.stepBlockCount);
    NimTextInjective(d.firstStepAmount, d.stepAmount);
    NimTextInjective(d.lastStepAmount, d.stepAmount);
    NimTextInjective(d.preVested, 0);
  }

  // ---------------------------------------------------------------------------------------------------------------
  // The reader is told the schedule

  /** The plan that a schedule of a contract with `tx` amounts to; an amount that occurs in no step is left open. */
  function PlanOf(d: Schedule, tx: u64): Plan {
    if !d.IsMultiStep() then
      Plan(d.preVested, 1, d.firstStepBlock, 0, d.firstStepBlock, tx - d.preVested, tx - d.preVested, tx - d.preVested)
    else
      Plan(d.preVested, d.stepCount, d.startBlock + d.firstStepBlockCount, d.stepBlockCount, d.startBlock + d.period,
           d.firstStepAmount, if NoRegularStep(d) then 0 else d.stepAmount, d.lastStepAmount)
  }

  /** An entry with an amount that may be left out. */
  lemma ReadNimEntry(shown: bool, text: string, a: nat, otherwise: int)
    requires text == NimText(a)
    ensures ReadNim(Entry(shown, text), otherwise) == if shown then a else otherwise
  {
    ReadNimText(a, otherwise);
  }

  lemma ReadBlocksEntry(shown: bool, text: string, n: u32, otherwise: int)
    requires text == BlocksText(n)
    ensures ReadNumber(Entry(shown, text), otherwise) == if shown then n else otherwise
  {
    ReadBlocks(n, otherwise);
  }

  lemma ReadNumberEntry(shown: bool, text: string, n: nat)
    requires text == Numeral(n)
    ensures ReadNumber(Entry(shown, text), 0) == if shown then n else 0
  {
    ReadNumeral(n, 0);
  }

  /** All entries with amounts, those left out having the value that is inferred. */
  lemma AmountsRead(p: Parsed, d: Schedule, tx: u64)
    requires Prints(p.vesting, d) && p.value == NimText(tx)
    ensures var s, regular := ScreenOf(p), if NoRegularStep(d) then 0 else d.stepAmount;
      && ReadNim(s.amount, 0) == tx && ReadNim(s.preVested, 0) == d.preVested
      && (d.IsMultiStep() ==>
            && ReadNim(s.vestedPerStep, 0) == regular
            && ReadNim(s.firstStep, regular) == d.firstStepAmount
            && ReadNim(s.lastStep, regular) == d.lastStepAmount)
  {
    var t, regular := p.vesting, if NoRegularStep(d) then 0 else d.stepAmount;
    EntriesByNumbers(t, d);
    NimTextInjective(tx, 0);
    ReadNimEntry(HasAmountEntry(p), p.value, tx, 0);
    ReadNimEntry(HasPreVestedAmountEntry(t), t.preVestedAmount, d.preVested, 0);
    ReadNimEntry(HasStepAmountEntry(t), t.stepAmount, d.stepAmount, 0);
    ReadNimEntry(HasFirstStepAmountEntry(t), t.firstStepAmount, d.firstStepAmount, regular);
    ReadNimEntry(HasLastStepAmountEntry(t), t.lastStepAmount, d.lastStepAmount, regular);
  }

  /** All entries with blocks. */
  lemma BlocksRead(p: Parsed, d: Schedule)
    requires Prints(p.vesting, d)
    ensures var s := ScreenOf(p);
      if d.IsMultiStep() then
        && s.vestedAtBlock.None? && ReadNumber(s.startBlock, 0) == d.startBlock && ReadNumber(s.period, 0) == d.period
        && ReadNumber(s.steps, 0) == d.stepCount && ReadNumber(s.blocksPerStep, 0) == d.stepBlockCount
        && ReadNumber(s.firstStepDuration, d.stepBlockCount) == d.firstStepBlockCount
      else
        s.vestedAtBlock.Some? && ReadNumber(s.vestedAtBlock, 0) == d.firstStepBlock
  {
    var t, several := p.vesting, HasStartAndPeriodAndStepCountAndStepDurationEntries(p.vesting);
    EntriesByNumbers(t, d);
    ReadNumberEntry(HasSingleVestingBlockEntry(t), t.firstStepBlock, d.firstStepBlock);
    ReadNumberEntry(several, t.startBlock, d.startBlock);
    ReadNumberEntry(several, t.stepCount, d.stepCount);
    ReadBlocksEntry(several, t.period, d.period, 0);
    ReadBlocksEntry(several, t.stepBlockCount, d.stepBlockCount, 0);
    ReadBlocksEntry(HasFirstStepDurationEntry(t), t.firstStepBlockCount, d.firstStepBlockCount, d.stepBlockCount);
  }

  lemma ScreenRead(p: Parsed, d: Schedule, tx: u64)
    requires Prints(p.vesting, d) && p.value == NimText(tx)
    ensures ReadScreen(ScreenOf(p)) == PlanOf(d, tx)
  {
    AmountsRead(p, d, tx);
    BlocksRead(p, d);
  }

  /** What has been unlocked before the last step; `q` counts the regular steps that are over. */
  lemma {:induction false} UnlockedBeforeLast(p: Plan, k: nat, h: int, q: int)
    requires 1 <= k < p.steps && p.blocksPerStep > 0
    requires q == (h - p.firstBlock) / p.blocksPerStep
    ensures p.Unlocked(k, h) == if q < 0 then 0 else p.first + Times(if q < k - 1 then q else k - 1, p.regular)
  {
    QuotientLess(h - p.firstBlock, p.blocksPerStep, k - 1);
    if k > 1 {
      UnlockedBeforeLast(p, k - 1, h, q);
    } else {
      assert p.Unlocked(0, h) == 0;
    }
  }

  /** The sum of `n` equal amounts. */
  function Times(n: int, amount: int): int {
    if n <= 0 then 0 else Times(n - 1, amount) + amount
  }

  lemma {:induction false} TimesIsProduct(n: nat, amount: int)
    ensures Times(n, amount) == n * amount
  {
    if n > 0 {
      TimesIsProduct(n - 1, amount);
    }
  }

  /** The last step ends where a regular one would end. */
  lemma LastStepInTime(p: Params, tx: u64, d: Schedule)
    requires ScheduleOf(p, tx) == Ok(d) && d.stepCount >= 2
    ensures d.stepBlockCount > 0
    ensures d.startBlock + d.period == d.startBlock + d.firstStepBlockCount + (d.stepCount - 1) * d.stepBlockCount
  {
    FirstStepInPeriod(p, tx, d);
    var e, n, b := p.ExcessSteps(tx), p.AllSteps(), p.stepBlocks;
    assert n * b == (e + 1) * b + (n - e - 1) * b;
  }

  /** Summing up steps one by one gives the closed form of the schedule. */
  lemma PlanReleases(p: Params, tx: u64, d: Schedule, h: int)
    requires ScheduleOf(p, tx) == Ok(d)
    ensures PlanOf(d, tx).Released(h) == d.Released(tx, h)
  {
    var plan := PlanOf(d, tx);
    if d.IsMultiStep() {
      LastStepInTime(p, tx, d);
      var n, q := d.stepCount, (h - plan.firstBlock) / plan.blocksPerStep;
      QuotientLess(h - plan.firstBlock, plan.blocksPerStep, n - 1);
      QuotientLess(h - plan.firstBlock, plan.blocksPerStep, 0);
      UnlockedBeforeLast(plan, n - 1, h, q);
      RegularSteps(d, if q < n - 2 then q else n - 2);
    } else {
      assert plan.Unlocked(0, h) == 0;
    }
  }

  lemma RegularSteps(d: Schedule, n: int)
    requires d.IsMultiStep() && n <= d.stepCount - 2
    ensures n >= 0 ==> Times(n, if NoRegularStep(d) then 0 else d.stepAmount) == n * d.stepAmount
  {
    if n >= 0 {
      TimesIsProduct(n, if NoRegularStep(d) then 0 else d.stepAmount);
    }
  }

  // ---------------------------------------------------------------------------------------------------------------
  // What is told

  /**
   The numbers that are told of a schedule: those of a single step, or those of several with the regular one if any.
   */
  datatype Told =
    | OneStep(block: int, preVested: int)
    | Steps(start: int, period: int, steps: int, blocksPerStep: int, firstDuration: int,
            first: int, regular: Option<int>, last: int, preVested: int)

  function ToldOf(d: Schedule): Told {
    if !d.IsMultiStep() then OneStep(d.firstStepBlock, d.preVested)
    else
      Steps(d.startBlock, d.period, d.stepCount, d.stepBlockCount, d.firstStepBlockCount, d.firstStepAmount,
            if NoRegularStep(d) then None else Some(d.stepAmount), d.lastStepAmount, d.preVested)
  }

  /** All that is told can be read from the entries. */
  lemma ToldIsRead(p: Parsed, d: Schedule, tx: u64)
    requires Prints(p.vesting, d) && p.value == NimText(tx)
    ensures ToldOf(d) == ReadTold(ScreenOf(p))
  {
    AmountsRead(p, d, tx);
    BlocksRead(p, d);
    EntriesByNumbers(p.vesting, d);
  }

  function ReadTold(s: Screen): Told {
    var preVested := ReadNim(s.preVested, 0);
    if s.vestedAtBlock.Some? then OneStep(ReadNumber(s.vestedAtBlock, 0), preVested)
    else
      var blocks, regular := ReadNumber(s.blocksPerStep, 0), ReadNim(s.vestedPerStep, 0);
      Steps(ReadNumber(s.startBlock, 0), ReadNumber(s.period, 0), ReadNumber(s.steps, 0), blocks,
            ReadNumber(s.firstStepDuration, blocks), ReadNim(s.firstStep, regular),
            if s.vestedPerStep.Some? then Some(regular) else None, ReadNim(s.lastStep, regular), preVested)
  }

  /** The entries but that for the owner are a matter of what is told and of the amount. */
  lemma EntriesOfTold(p: Parsed, q: Parsed, d: Schedule, e: Schedule)
    requires Prints(p.vesting, d) && Prints(q.vesting, e) && p.value == q.value && ToldOf(d) == ToldOf(e)
    ensures ScreenOf(p).(owner := None) == ScreenOf(q).(owner := None)
  {
    EntriesByNumbers(p.vesting, d);
    EntriesByNumbers(q.vesting, e);
  }

  /** Who owns the contract: no address stands for the sender. */
  function OwnerOf(owner: Address, sender: Address): Option<Address> {
    if owner == sender then None else Some(owner)
  }

  /** The struct for a contract. */
  predicate Describes(p: Parsed, d: Schedule, tx: u64, owner: Address, sender: Address) {
    && Prints(p.vesting, d) && p.value == NimText(tx)
    && p.vesting.isOwnerAddressSenderAddress == (owner == sender) && p.vesting.ownerAddress == TextOf(owner)
  }

  lemma OwnerEntry(p: Parsed, d: Schedule, tx: u64, owner: Address, sender: Address)
    requires Describes(p, d, tx, owner, sender)
    ensures ScreenOf(p).owner == if OwnerOf(owner, sender).Some? then Some(TextOf(owner)) else None
  {
  }

  lemma OwnerEntries(oa: Address, ob: Address, sa: Address, sb: Address)
    ensures (if OwnerOf(oa, sa).Some? then Some(TextOf(oa)) else None)
         == (if OwnerOf(ob, sb).Some? then Some(TextOf(ob)) else None)
       <==> OwnerOf(oa, sa) == OwnerOf(ob, sb)
  {
    TextInjective(oa, ob);
  }

  /** Contracts look the same exactly if amount and owner are the same and the same is told of the schedule. */
  lemma VestingScreenDetermines(p: Parsed, q: Parsed, d: Schedule, e: Schedule, ta: u64, tb: u64,
                                oa: Address, ob: Address, sa: Address, sb: Address)
    requires Describes(p, d, ta, oa, sa) && Describes(q, e, tb, ob, sb)
    ensures ScreenOf(p) == ScreenOf(q)
       <==> ta == tb && ToldOf(d) == ToldOf(e) && OwnerOf(oa, sa) == OwnerOf(ob, sb)
  {
    OwnerEntry(p, d, ta, oa, sa);
    OwnerEntry(q, e, tb, ob, sb);
    OwnerEntries(oa, ob, sa, sb);
    if ScreenOf(p) == ScreenOf(q) {
      ToldIsRead(p, d, ta);
      ToldIsRead(q, e, tb);
      AmountsRead(p, d, ta);
      AmountsRead(q, e, tb);
    } else if ta == tb && ToldOf(d) == ToldOf(e) {
      EntriesOfTold(p, q, d, e);
    }
  }

  // ---------------------------------------------------------------------------------------------------------------
  // Accepted transactions

  /** Parsing a transaction ended with a contract creation to be shown. */
  predicate Accepted(version: u8, s: Bytes, addressOf: PublicKey -> Address, init: Parsed) {
    var outcome := Transaction.Outcome(version, s, addressOf, init);
    outcome.Ok? && outcome.value.transactionType == VESTING_CREATION
  }

  lemma DisplayPrints(owner: Address, sender: Address, d: Schedule)
    ensures Prints(VestingCreation.DisplayOf(owner, sender, d), d)
  {
  }

  /** The contract that an accepted transaction creates, and what the struct for it holds. */
  lemma AcceptedContract(version: u8, s: Bytes, addressOf: PublicKey -> Address, init: Parsed)
    returns (f: Transaction.Fields, owner: Address, terms: Terms)
    requires Accepted(version, s, addressOf, init)
    ensures Transaction.WellFormed(version, f) && s == Transaction.Serialize(version, f)
    ensures Transaction.Describes(version, f, Transaction.VestingCreation(owner, terms))
    ensures var tx := f.amounts.value;
            var d := ScheduleOf(ParamsOf(terms, tx), tx).value;
            var shown := Transaction.Outcome(version, s, addressOf, init).value;
            && shown.value == NimText(tx)
            && shown.vesting == VestingCreation.DisplayOf(owner, f.parties.sender, d)
  {
    var kind;
    f, kind := Transaction.AcceptedSerialized(version, s, addressOf, init);
    owner, terms := kind.owner, kind.terms;
  }

  /**
   The screen tells how the contract releases its funds: at every height from the start block on, what a reader takes to
   be released is what the contract releases, and before the start block it is exactly if no amount is pre-vested.
   */
  lemma ScreenTellsRelease(version: u8, s: Bytes, addressOf: PublicKey -> Address, init: Parsed, h: int)
    returns (f: Transaction.Fields, owner: Address, terms: Terms)
    requires Accepted(version, s, addressOf, init)
    ensures Transaction.WellFormed(version, f) && s == Transaction.Serialize(version, f)
    ensures Transaction.Describes(version, f, Transaction.VestingCreation(owner, terms))
    ensures var tx := f.amounts.value;
            var p := ParamsOf(terms, tx);
            var shown := Transaction.Outcome(version, s, addressOf, init).value;
            && (ReadScreen(ScreenOf(shown)).Released(h) == ContractReleased(p, tx, h)
                <==> p.Immediate() || h >= p.start || p.totalLocked >= tx)
  {
    f, owner, terms := AcceptedContract(version, s, addressOf, init);
    var tx := f.amounts.value;
    var p := ParamsOf(terms, tx);
    var d := ScheduleOf(p, tx).value;
    DisplayPrints(owner, f.parties.sender, d);
    ScreenRead(Transaction.Outcome(version, s, addressOf, init).value, d, tx);
    PlanReleases(p, tx, d, h);
    ScheduleRefinesContract(p, tx, d, h);
  }

  /** Contracts with the same screen have the same schedule: nothing that matters is left out. */
  lemma SameScreenSameRelease(pa: Parsed, pb: Parsed, a: Params, b: Params, ta: u64, tb: u64,
                              da: Schedule, db: Schedule, h: int)
    requires ScheduleOf(a, ta) == Ok(da) && ScheduleOf(b, tb) == Ok(db)
    requires Prints(pa.vesting, da) && pa.value == NimText(ta) && Prints(pb.vesting, db) && pb.value == NimText(tb)
    requires ScreenOf(pa) == ScreenOf(pb)
    ensures da.Released(ta, h) == db.Released(tb, h)
    ensures ta == tb
  {
    ScreenRead(pa, da, ta);
    ScreenRead(pb, db, tb);
    PlanReleases(a, ta, da, h);
    PlanReleases(b, tb, db, h);
    NimTextInjective(ta, 0);
    NimTextInjective(tb, 0);
    NimTextInjective(ta, tb);
  }

  // ---------------------------------------------------------------------------------------------------------------
  // Examples

  function ZeroAddress(): Address {
    seq(20, _ => 0)
  }

  /** The creation of a contract with given terms, on the main network and without a fee. */
  function CreationOf(terms: Terms, value: u64): Transaction.Fields {
    Transaction.Fields(
      Transaction.Parties(PutVesting(ZeroAddress(), terms), ZeroAddress(), ACCOUNT_TYPE_BASIC,
                          ZeroAddress(), ACCOUNT_TYPE_VESTING),
      Transaction.Amounts(value, 0), Transaction.Trailer(0, 42, Transaction.TX_FLAG_CONTRACT_CREATION, []))
  }

  /** What is shown of an accepted transaction. */
  ghost predicate IsShown(version: u8, s: Bytes, addressOf: PublicKey -> Address, init: Parsed, shown: Parsed) {
    Accepted(version, s, addressOf, init) && Transaction.Outcome(version, s, addressOf, init) == Ok(shown)
  }

  /** The bytes create a contract with these terms. */
  ghost predicate Creates(s: Bytes, terms: Terms, value: u64) {
    && Transaction.WellFormed(TRANSACTION_VERSION_LEGACY, CreationOf(terms, value))
    && s == Transaction.Serialize(TRANSACTION_VERSION_LEGACY, CreationOf(terms, value))
  }

  /** A transaction with terms that can be translated and printed is accepted, and printed as its schedule. */
  lemma CreationShown(terms: Terms, value: u64, d: Schedule, addressOf: PublicKey -> Address, init: Parsed)
    returns (s: Bytes, shown: Parsed)
    requires ScheduleOf(ParamsOf(terms, value), value) == Ok(d) && value <= MAX_SAFE_LUNA_AMOUNT
    requires ParamsOf(terms, value).stepAmount <= MAX_SAFE_LUNA_AMOUNT
    ensures IsShown(TRANSACTION_VERSION_LEGACY, s, addressOf, init, shown) && Creates(s, terms, value)
    ensures ReadScreen(ScreenOf(shown)) == PlanOf(d, value)
    ensures d.stepCount <= 1 ==> ScreenOf(shown).vestedAtBlock == Some(Numeral(d.firstStepBlock))
  {
    var version, f := TRANSACTION_VERSION_LEGACY, CreationOf(terms, value);
    TermsLength(terms);
    s := Transaction.Serialize(version, f);
    Transaction.SerializedAccepted(version, f, Transaction.VestingCreation(ZeroAddress(), terms), addressOf, init);
    shown := Transaction.Outcome(version, s, addressOf, init).value;
    DisplayPrints(ZeroAddress(), ZeroAddress(), d);
    ScreenRead(shown, d, value);
  }

  lemma TermsLength(terms: Terms)
    ensures |PutTerms(terms)| <= 24
  {
  }

  /**
   An accepted transaction for which the screen says "Vested at Block" 0, although the step would end at block 2^32: the
   sum wraps around. As there is no step that unlocks funds a reader takes all of them to be pre-vested, too.
   */
  lemma WrappedBlockShown(addressOf: PublicKey -> Address, init: Parsed)
    returns (s: Bytes, shown: Parsed, terms: Terms, value: u64)
    ensures terms == Full(UINT32_MAX, 1, 1, 0) && value == 10 && Creates(s, terms, value)
    ensures IsShown(TRANSACTION_VERSION_LEGACY, s, addressOf, init, shown)
    ensures ScreenOf(shown).vestedAtBlock == Some("0") && ReadScreen(ScreenOf(shown)) == Plan(10, 1, 0, 0, 0, 0, 0, 0)
  {
    var p, d := WrappedBlock();
    terms, value := WrappedTerms(p);
    s, shown := CreationShown(terms, value, d, addressOf, init);
    PlanOfEmpty(d, value);
  }

  lemma WrappedTerms(p: Params) returns (terms: Terms, value: u64)
    requires p == Params(UINT32_MAX, 1, 1, 0)
    ensures terms == Full(UINT32_MAX, 1, 1, 0) && value == 10 && ParamsOf(terms, value) == p
    ensures value <= MAX_SAFE_LUNA_AMOUNT && p.stepAmount <= MAX_SAFE_LUNA_AMOUNT
  {
    terms, value := Full(UINT32_MAX, 1, 1, 0), 10;
  }

  lemma PlanOfEmpty(d: Schedule, value: u64)
    requires d.stepCount == 0 && d.firstStepBlock == 0 && d.preVested == value
    ensures PlanOf(d, value) == Plan(value, 1, 0, 0, 0, 0, 0, 0) && Numeral(d.firstStepBlock) == "0"
  {
  }

  /**
   An accepted transaction whose screen reads as if 5 of 10 were released at once, while the contract releases nothing
   before its start at block 100.
   */
  lemma PreVestedShown(addressOf: PublicKey -> Address, init: Parsed)
    returns (s: Bytes, shown: Parsed, terms: Terms, value: u64)
    ensures terms == Full(100, 1, 1, 5) && value == 10 && Creates(s, terms, value)
    ensures IsShown(TRANSACTION_VERSION_LEGACY, s, addressOf, init, shown)
    ensures ReadScreen(ScreenOf(shown)).Released(0) == 5 && ContractReleased(ParamsOf(terms, value), value, 0) == 0
  {
    var p, d := PreVestedBeforeStart();
    terms, value := PreVestedTerms(p);
    s, shown := CreationShown(terms, value, d, addressOf, init);
    PlanReleases(p, value, d, 0);
  }

  lemma PreVestedTerms(p: Params) returns (terms: Terms, value: u64)
    requires p == Params(100, 1, 1, 5)
    ensures terms == Full(100, 1, 1, 5) && value == 10 && ParamsOf(terms, value) == p
    ensures value <= MAX_SAFE_LUNA_AMOUNT && p.stepAmount <= MAX_SAFE_LUNA_AMOUNT
  {
    terms, value := Full(100, 1, 1, 5), 10;
  }
}
