/**
 The vesting arithmetic of `parse_vesting_creation_data`: contract parameters are translated into a schedule that can
 be shown to a person, and the schedule is proved to release the funds the contract releases.
 */
module VestingSchedule {
  import opened Arithmetic
  import opened Machine

  /** The raw parameters of a vesting contract. */
  datatype Params = Params(start: u32, stepBlocks: u32, stepAmount: u64, totalLocked: u64) {
    /** With no step length or no step amount everything is vested at once. */
    predicate Immediate() {
      stepBlocks == 0 || stepAmount == 0
    }

    /** Number of steps until nothing is locked any more, counting steps that only vest virtual funds. */
    function AllSteps(): nat
      requires !Immediate()
    {
      CeilDiv(totalLocked, stepAmount)
    }

    /** Locked amount that exceeds the contract's real funds and is vested before any of them. */
    function Excess(tx: u64): nat {
      if totalLocked > tx then totalLocked - tx else 0
    }

    /** Number of steps that vest nothing but excess. */
    function ExcessSteps(tx: u64): nat
      requires !Immediate()
    {
      Excess(tx) / stepAmount
    }

    /** The parameters that the app is willing to translate: all steps end at a representable block. */
    predicate Translatable() {
      Immediate() || (AllSteps() <= UINT32_MAX && start + AllSteps() * stepBlocks <= UINT32_MAX)
    }
  }

  /** What the app tells the user about a vesting contract. */
  datatype Schedule = Schedule(
    startBlock: u32, stepCount: u32, stepBlockCount: u32, period: u32,
    firstStepBlockCount: u32, firstStepBlock: u32,
    stepAmount: u64, firstStepAmount: u64, lastStepAmount: u64, preVested: u64)
  {
    predicate IsMultiStep() {
      stepCount > 1
    }

    /**
     The amount that a contract holding `tx` has released at height `h`, the way a reader takes the entries: the
     pre-vested amount from the outset; with several steps the first amount once the first step is over, the regular
     amount at each regular step and the last amount at the end of the period; with at most one step all the rest.
     */
    function Released(tx: u64, h: int): int {
      if !IsMultiStep() then
        preVested + (if h >= firstStepBlock then tx - preVested else 0)
      else if h < startBlock + firstStepBlockCount then
        preVested
      else if h >= startBlock + period then
        preVested + firstStepAmount + (stepCount - 2) * stepAmount + lastStepAmount
      else
        preVested + firstStepAmount
        + (if stepBlockCount == 0 then 0 else (h - startBlock - firstStepBlockCount) / stepBlockCount) * stepAmount
    }
  }

  function CeilDiv(a: nat, b: nat): nat
    requires b > 0
  {
    a / b + if a % b == 0 then 0 else 1
  }

  /** Number of whole steps passed at height `h`, rounding down also before the start. */
  function StepsPassed(p: Params, h: int): int
    requires !p.Immediate()
  {
    (h - p.start) / p.stepBlocks
  }

  /** What the contract itself releases: all of `tx` but what is still locked. */
  function ContractReleased(p: Params, tx: u64, h: int): int {
    if p.Immediate() then tx
    else
      var locked := p.totalLocked - StepsPassed(p, h) * p.stepAmount;
      if locked <= 0 then tx else if locked >= tx then 0 else tx - locked
  }

  /** The schedule as a function of the parameters, over unbounded integers but for the two final truncations. */
  function ScheduleOf(p: Params, tx: u64): (r: Result<Schedule>)
    ensures r.Ok? <==> p.Translatable()
    ensures r.Err? ==> r.error == IncorrectData
  {
    if p.Immediate() then
      Ok(Schedule(0, 0, 0, 0, 0, 0, tx, tx, tx, tx))
    else if !p.Translatable() then
      Err(IncorrectData)
    else
      StepBounds(p, tx);
      var n, e := p.AllSteps(), p.ExcessSteps(tx);
      var firstBlocks := (e + 1) * p.stepBlocks % 0x1_0000_0000;
      Ok(Schedule(
           p.start, n - e, p.stepBlocks, n * p.stepBlocks,
           firstBlocks, (p.start + firstBlocks) % 0x1_0000_0000,
           p.stepAmount, p.stepAmount - p.Excess(tx) % p.stepAmount,
           LastStep(p.totalLocked, p.stepAmount),
           if tx > p.totalLocked then tx - p.totalLocked else 0))
  }

  // ---------------------------------------------------------------------------------------------------------------
  // Arithmetic

  lemma CeilDivBounds(a: nat, b: nat)
    requires b > 0
    ensures (CeilDiv(a, b) - 1) * b < a <= CeilDiv(a, b) * b
  {
    QuotientBounds(a, b);
  }

  lemma FewerSteps(excess: nat, locked: nat, s: nat)
    requires s > 0 && excess <= locked
    ensures excess / s <= CeilDiv(locked, s)
    ensures excess < locked ==> excess / s < CeilDiv(locked, s)
  {
    var e, n := excess / s, CeilDiv(locked, s);
    CeilDivBounds(locked, s);
    QuotientBounds(excess, s);
    if e >= n {
      MulMonotone(n, e, s);
      if e > n {
        MulMonotone(n + 1, e, s);
      }
    }
  }

  /** Excess steps are fewer than all steps as soon as there are real funds to lock. */
  lemma StepBounds(p: Params, tx: u64)
    requires !p.Immediate()
    ensures p.ExcessSteps(tx) <= p.AllSteps()
    ensures tx > 0 && p.totalLocked > 0 ==> p.ExcessSteps(tx) < p.AllSteps()
    ensures p.Translatable() ==> 0 <= p.AllSteps() * p.stepBlocks <= UINT32_MAX
    ensures 0 <= p.Excess(tx) % p.stepAmount < p.stepAmount
    ensures 0 <= p.totalLocked % p.stepAmount < p.stepAmount
  {
    FewerSteps(p.Excess(tx), p.totalLocked, p.stepAmount);
    MulNonNegative(p.AllSteps(), p.stepBlocks);
    ModBounds(p.Excess(tx), p.stepAmount);
    ModBounds(p.totalLocked, p.stepAmount);
  }

  // ---------------------------------------------------------------------------------------------------------------
  // Properties of the schedule

  /** There is a step that unlocks funds unless nothing is locked, or whole steps vest funds that do not exist. */
  lemma StepsExist(p: Params, tx: u64, d: Schedule)
    requires !p.Immediate() && ScheduleOf(p, tx) == Ok(d)
    ensures d.stepCount >= 1 <==> p.totalLocked > 0 && (tx > 0 || p.totalLocked % p.stepAmount != 0)
  {
    StepBounds(p, tx);
    ZeroQuotient(p.stepAmount);
  }

  /** With a step that unlocks funds the truncations are the identity and the first step lies within the period. */
  lemma FirstStepInPeriod(p: Params, tx: u64, d: Schedule)
    requires !p.Immediate() && ScheduleOf(p, tx) == Ok(d) && d.stepCount >= 1
    ensures d.firstStepBlockCount == (p.ExcessSteps(tx) + 1) * p.stepBlocks
    ensures d.firstStepBlock == d.startBlock + d.firstStepBlockCount <= d.startBlock + d.period <= UINT32_MAX
  {
    StepBounds(p, tx);
    MulMonotone(p.ExcessSteps(tx) + 1, p.AllSteps(), p.stepBlocks);
    MulNonNegative(p.ExcessSteps(tx) + 1, p.stepBlocks);
  }

  /** Neither of the two sums that are said not to overflow does so. */
  predicate NothingWraps(p: Params, tx: u64, d: Schedule)
    requires !p.Immediate()
  {
    && d.firstStepBlockCount == (p.ExcessSteps(tx) + 1) * p.stepBlocks
    && d.firstStepBlock == p.start + d.firstStepBlockCount
  }

  /** The sums are exact if and only if there is a step that unlocks funds, or room for one more step after the end. */
  lemma NoWrap(p: Params, tx: u64, d: Schedule)
    requires !p.Immediate() && ScheduleOf(p, tx) == Ok(d)
    ensures NothingWraps(p, tx, d) <==> d.stepCount >= 1 || p.start + d.period + p.stepBlocks <= UINT32_MAX
  {
    if d.stepCount >= 1 {
      FirstStepInPeriod(p, tx, d);
    } else {
      StepBounds(p, tx);
      MulNonNegative(p.AllSteps(), p.stepBlocks);
      OneMore(p.AllSteps(), p.stepBlocks);
    }
  }

  lemma OneMore(n: int, b: int)
    ensures (n + 1) * b == n * b + b
  {
  }

  /** Accepted parameters without a locked amount whose block for the funds is reported as block 0 instead of 2^32. */
  lemma WrappedBlock() returns (p: Params, d: Schedule)
    ensures p == Params(UINT32_MAX, 1, 1, 0) && ScheduleOf(p, 10) == Ok(d) && !NothingWraps(p, 10, d)
    ensures d == Schedule(UINT32_MAX, 0, 1, 0, 1, 0, 1, 1, 1, 10)
  {
    p := Params(UINT32_MAX, 1, 1, 0);
    assert p.AllSteps() == 0 && p.ExcessSteps(10) == 0;
    d := ScheduleOf(p, 10).value;
  }

  /** What is left of whole steps for the last one. */
  lemma LastAmount(locked: u64, s: u64)
    requires s > 0
    ensures LastStep(locked, s) == locked - (CeilDiv(locked, s) - 1) * s && 0 < LastStep(locked, s) <= s
  {
    var q, r := locked / s, locked % s;
    QuotientBounds(locked, s);
    ModBounds(locked, s);
    OneMore(q - 1, s);
  }

  /** What the excess leaves of the first step that it does not fill. */
  lemma FirstAmount(excess: nat, s: nat)
    requires s > 0
    ensures s - excess % s == (excess / s + 1) * s - excess && 0 < s - excess % s <= s
  {
    QuotientBounds(excess, s);
    ModBounds(excess, s);
    OneMore(excess / s, s);
  }

  /** The products of the locked amount that the released amounts are made of. */
  lemma StepAmounts(p: Params, tx: u64, d: Schedule)
    requires !p.Immediate() && ScheduleOf(p, tx) == Ok(d)
    ensures 0 < d.firstStepAmount <= d.stepAmount && 0 < d.lastStepAmount <= d.stepAmount
    ensures d.lastStepAmount == p.totalLocked - (p.AllSteps() - 1) * p.stepAmount
    ensures d.firstStepAmount == (p.ExcessSteps(tx) + 1) * p.stepAmount - p.Excess(tx)
  {
    LastAmount(p.totalLocked, p.stepAmount);
    FirstAmount(p.Excess(tx), p.stepAmount);
  }

  lemma BetweenSteps(n: int, e: int, s: int)
    ensures (n - e - 2) * s == (n - 1) * s - (e + 1) * s
  {
  }

  /** Nothing is lost or made up: with several steps the displayed amounts add up to the transaction amount. */
  lemma Conservation(p: Params, tx: u64, d: Schedule)
    requires ScheduleOf(p, tx) == Ok(d) && d.stepCount >= 2
    ensures d.preVested + d.firstStepAmount + (d.stepCount - 2) * d.stepAmount + d.lastStepAmount == tx
    ensures 0 < d.firstStepAmount <= d.stepAmount && 0 < d.lastStepAmount <= d.stepAmount
  {
    StepAmounts(p, tx, d);
    BetweenSteps(p.AllSteps(), p.ExcessSteps(tx), p.stepAmount);
  }

  /** Where the steps lie: the first funds and the end of the period, counted in whole steps since the start. */
  lemma StepPositions(p: Params, tx: u64, d: Schedule, h: int)
    requires !p.Immediate() && ScheduleOf(p, tx) == Ok(d) && d.stepCount >= 1
    ensures h < d.startBlock + d.firstStepBlockCount <==> StepsPassed(p, h) < p.ExcessSteps(tx) + 1
    ensures h < d.startBlock + d.period <==> StepsPassed(p, h) < p.AllSteps()
    ensures h < d.startBlock <==> StepsPassed(p, h) < 0
    ensures (h - d.startBlock - d.firstStepBlockCount) / d.stepBlockCount
         == StepsPassed(p, h) - p.ExcessSteps(tx) - 1
  {
    FirstStepInPeriod(p, tx, d);
    var x, b := h - p.start, p.stepBlocks;
    QuotientLess(x, b, p.ExcessSteps(tx) + 1);
    QuotientLess(x, b, p.AllSteps());
    QuotientLess(x, b, 0);
    QuotientShift(x, b, p.ExcessSteps(tx) + 1);
  }

  /** The contract's side, by number of steps passed. */
  lemma ContractAfterSteps(p: Params, tx: u64, h: int)
    requires !p.Immediate()
    ensures var k := StepsPassed(p, h);
            && (k >= p.AllSteps() ==> ContractReleased(p, tx, h) == tx)
            && (p.ExcessSteps(tx) < k < p.AllSteps() ==>
                  ContractReleased(p, tx, h) == tx - p.totalLocked + k * p.stepAmount)
            && ((0 <= k || p.totalLocked >= tx) && k <= p.ExcessSteps(tx) && p.totalLocked > tx ==>
                  ContractReleased(p, tx, h) == 0)
            && (p.totalLocked <= tx && k == 0 ==> ContractReleased(p, tx, h) == tx - p.totalLocked)
            && (p.totalLocked < tx && k < 0 ==> ContractReleased(p, tx, h) < tx - p.totalLocked)
            && (p.totalLocked == tx && k < 0 ==> ContractReleased(p, tx, h) == 0)
  {
    var k, s, e, n := StepsPassed(p, h), p.stepAmount, p.ExcessSteps(tx), p.AllSteps();
    CeilDivBounds(p.totalLocked, s);
    QuotientBounds(p.Excess(tx), s);
    if k >= n {
      MulMonotone(n, k, s);
    } else {
      MulMonotone(k, n - 1, s);
    }
    if k > e {
      MulMonotone(e + 1, k, s);
    } else {
      MulMonotone(k, e, s);
    }
    if k < 0 {
      MulMonotone(k, -1, s);
    }
  }

  /** What a reader of several steps takes to be released after `k` whole steps, `e` of them without funds. */
  lemma SeveralStepsReleased(d: Schedule, tx: u64, h: int, k: int, e: int)
    requires d.IsMultiStep() && d.stepBlockCount > 0
    requires h < d.startBlock + d.firstStepBlockCount <==> k <= e
    requires h < d.startBlock + d.period <==> k < e + d.stepCount
    requires (h - d.startBlock - d.firstStepBlockCount) / d.stepBlockCount == k - e - 1
    requires d.preVested + d.firstStepAmount + (d.stepCount - 2) * d.stepAmount + d.lastStepAmount == tx
    ensures k >= e + d.stepCount ==> d.Released(tx, h) == tx
    ensures e < k < e + d.stepCount ==>
              d.Released(tx, h) == d.preVested + d.firstStepAmount + (k - e - 1) * d.stepAmount
    ensures k <= e ==> d.Released(tx, h) == d.preVested
  {
  }

  /** The schedule's side, by number of steps passed. */
  lemma ScheduleAfterSteps(p: Params, tx: u64, d: Schedule, h: int)
    requires !p.Immediate() && ScheduleOf(p, tx) == Ok(d) && d.stepCount >= 1
    ensures var k := StepsPassed(p, h);
            && (k >= p.AllSteps() ==> d.Released(tx, h) == tx)
            && (p.ExcessSteps(tx) < k < p.AllSteps() ==> d.Released(tx, h) == tx - p.totalLocked + k * p.stepAmount)
            && (k <= p.ExcessSteps(tx) ==> d.Released(tx, h) == d.preVested)
  {
    var k, e, s := StepsPassed(p, h), p.ExcessSteps(tx), p.stepAmount;
    StepPositions(p, tx, d, h);
    if d.IsMultiStep() {
      Conservation(p, tx, d);
      StepAmounts(p, tx, d);
      SeveralStepsReleased(d, tx, h, k, e);
      BetweenSteps(k + 1, e, s);
    } else {
      FirstStepInPeriod(p, tx, d);
    }
  }

  /** Without a step that unlocks funds there are no locked funds. */
  lemma NothingLocked(p: Params, tx: u64, d: Schedule, h: int)
    requires !p.Immediate() && ScheduleOf(p, tx) == Ok(d) && d.stepCount == 0
    ensures d.preVested == tx && (tx == 0 || p.totalLocked == 0)
    ensures h >= p.start || tx == 0 ==> ContractReleased(p, tx, h) == tx
  {
    StepBounds(p, tx);
    QuotientLess(h - p.start, p.stepBlocks, 0);
    if tx > 0 && h >= p.start {
      MulNonNegative(StepsPassed(p, h), p.stepAmount);
    }
  }

  lemma AgreeFromStart(p: Params, tx: u64, d: Schedule, h: int)
    requires !p.Immediate() && ScheduleOf(p, tx) == Ok(d) && h >= p.start
    ensures d.Released(tx, h) == ContractReleased(p, tx, h)
  {
    QuotientLess(h - p.start, p.stepBlocks, 0);
    var k := StepsPassed(p, h);
    if d.stepCount == 0 {
      NothingLocked(p, tx, d, h);
    } else if k > p.ExcessSteps(tx) {
      ScheduleAfterSteps(p, tx, d, h);
      ContractAfterSteps(p, tx, h);
    } else {
      assert d.Released(tx, h) == d.preVested by {
        ScheduleAfterSteps(p, tx, d, h);
      }
      BeforeFunds(p, tx, h);
    }
  }

  /** Before any funds are due the contract has released what is pre-vested. */
  lemma BeforeFunds(p: Params, tx: u64, h: int)
    requires !p.Immediate() && 0 <= StepsPassed(p, h) <= p.ExcessSteps(tx)
    ensures ContractReleased(p, tx, h) == if tx > p.totalLocked then tx - p.totalLocked else 0
  {
    var m := StepsPassed(p, h) * p.stepAmount;
    MulNonNegative(StepsPassed(p, h), p.stepAmount);
    MulMonotone(StepsPassed(p, h), p.ExcessSteps(tx), p.stepAmount);
    QuotientBounds(p.Excess(tx), p.stepAmount);
    assert 0 <= m <= p.Excess(tx);
  }

  lemma AgreeBeforeStart(p: Params, tx: u64, d: Schedule, h: int)
    requires !p.Immediate() && ScheduleOf(p, tx) == Ok(d) && h < p.start
    ensures d.Released(tx, h) == d.preVested
    ensures p.totalLocked >= tx ==> ContractReleased(p, tx, h) == 0 == d.preVested
    ensures p.totalLocked < tx ==> ContractReleased(p, tx, h) < d.preVested
  {
    QuotientLess(h - p.start, p.stepBlocks, 0);
    ContractAfterSteps(p, tx, h);
    if d.stepCount >= 1 {
      ScheduleAfterSteps(p, tx, d, h);
    } else {
      NothingLocked(p, tx, d, h);
    }
  }

  /**
   The displayed schedule releases what the contract releases at every height from the start block on; before the start
   block it does so exactly when no amount is pre-vested.
   */
  lemma ScheduleRefinesContract(p: Params, tx: u64, d: Schedule, h: int)
    requires ScheduleOf(p, tx) == Ok(d)
    ensures d.Released(tx, h) == ContractReleased(p, tx, h)
       <==> p.Immediate() || h >= p.start || p.totalLocked >= tx
  {
    if !p.Immediate() {
      if h >= p.start {
        AgreeFromStart(p, tx, d, h);
      } else {
        AgreeBeforeStart(p, tx, d, h);
      }
    }
  }

  /** A contract with half of its funds locked from block 100 on: before that block nothing is released of it. */
  lemma PreVestedBeforeStart() returns (p: Params, d: Schedule)
    ensures p == Params(100, 1, 1, 5) && ScheduleOf(p, 10) == Ok(d)
    ensures d.Released(10, 0) == 5 && ContractReleased(p, 10, 0) == 0
  {
    p := Params(100, 1, 1, 5);
    assert p.AllSteps() == 5;
    StepBounds(p, 10);
    d := ScheduleOf(p, 10).value;
    AgreeBeforeStart(p, 10, d, 0);
    assert StepsPassed(p, 0) == -100;
  }

  // ---------------------------------------------------------------------------------------------------------------
  // The translation as the device computes it

  /** Bounds of the 64-bit intermediates: no product or sum below leaves 64 bits. */
  lemma WideEnough(p: Params, tx: u64)
    requires !p.Immediate() && p.AllSteps() <= UINT32_MAX
    ensures 0 <= p.AllSteps() * p.stepBlocks <= UINT32_MAX * UINT32_MAX
    ensures 0 <= p.ExcessSteps(tx) * p.stepBlocks <= UINT32_MAX * UINT32_MAX
    ensures 0 <= p.totalLocked / p.stepAmount <= UINT32_MAX
  {
    StepBounds(p, tx);
    MulMonotone(p.AllSteps(), UINT32_MAX, p.stepBlocks);
    MulMonotone(p.stepBlocks, UINT32_MAX, UINT32_MAX);
    MulMonotone(p.ExcessSteps(tx), UINT32_MAX, p.stepBlocks);
    MulNonNegative(p.AllSteps(), p.stepBlocks);
    MulNonNegative(p.ExcessSteps(tx), p.stepBlocks);
  }

  /** The least number of steps that is not too small, computed as a quotient plus a rounding bit within 64 bits. */
  method CeilDivU64(a: u64, b: u64) returns (q: u64)
    requires b > 0
    ensures (q - 1) * b < a <= q * b
  {
    CeilDivBounds(a, b);
    if CeilDiv(a, b) > a {
      MulMonotone(a + 1, CeilDiv(a, b), b);
      MulMonotone(1, b, a);
      MulMonotone(a, CeilDiv(a, b) - 1, b);
    }
    q := a / b + if a % b != 0 then 1 else 0;
  }

  lemma CeilDivUnique(a: nat, b: nat, q: int)
    requires b > 0 && (q - 1) * b < a <= q * b
    ensures q == CeilDiv(a, b)
  {
    var n := CeilDiv(a, b);
    CeilDivBounds(a, b);
    if q < n {
      MulMonotone(q, n - 1, b);
    } else if q > n {
      MulMonotone(n, q - 1, b);
    }
  }

  /** The number of steps that unlock real funds. */
  method CountSteps(p: Params, txAmount: u64, allSteps: u64) returns (stepCount: u32)
    requires !p.Immediate() && allSteps == p.AllSteps() <= UINT32_MAX
    ensures stepCount == p.AllSteps() - p.ExcessSteps(txAmount)
  {
    StepBounds(p, txAmount);
    if p.totalLocked <= txAmount {
      ZeroQuotient(p.stepAmount);
      stepCount := allSteps;
    } else {
      stepCount := allSteps - (p.totalLocked - txAmount) / p.stepAmount;
    }
  }

  /** What is left for the last step. */
  function LastStep(locked: u64, stepAmount: u64): (r: u64)
    requires stepAmount > 0
  {
    ModBounds(locked, stepAmount);
    if locked % stepAmount == 0 then stepAmount else locked % stepAmount
  }

  /** The adaptions for a locked amount that differs from the transaction amount. */
  method AdaptFirstStep(p: Params, txAmount: u64)
    returns (firstStepBlockCount: u32, firstStepAmount: u64, preVestedAmount: u64)
    requires !p.Immediate() && p.AllSteps() <= UINT32_MAX
    ensures firstStepBlockCount == (p.ExcessSteps(txAmount) + 1) * p.stepBlocks % 0x1_0000_0000
    ensures firstStepAmount == p.stepAmount - p.Excess(txAmount) % p.stepAmount
    ensures preVestedAmount == if txAmount > p.totalLocked then txAmount - p.totalLocked else 0
  {
    WideEnough(p, txAmount);
    OneMore(p.ExcessSteps(txAmount), p.stepBlocks);
    FirstAmount(p.Excess(txAmount), p.stepAmount);
    ZeroQuotient(p.stepAmount);
    firstStepBlockCount, firstStepAmount, preVestedAmount := p.stepBlocks, p.stepAmount, 0;
    if txAmount > p.totalLocked {
      preVestedAmount := txAmount - p.totalLocked;
    } else if txAmount < p.totalLocked {
      var wide: u64 := p.stepBlocks + ((p.totalLocked - txAmount) / p.stepAmount) * p.stepBlocks;
      firstStepBlockCount := wide % 0x1_0000_0000; // truncated to 32 bits
      firstStepAmount := p.stepAmount - (p.totalLocked - txAmount) % p.stepAmount;
    }
  }

  /**
   The translation in 32- and 64-bit variables. Every assignment to one of them is within its type, so no operation but
   the two marked truncations can wrap; `NoWrap` says when those are exact.
   */
  method Translate(p: Params, txAmount: u64) returns (r: Result<Schedule>)
    ensures r == ScheduleOf(p, txAmount)
  {
    if p.stepBlocks == 0 || p.stepAmount == 0 {
      return Ok(Schedule(0, 0, 0, 0, 0, 0, txAmount, txAmount, txAmount, txAmount));
    }
    var helper: u64 := CeilDivU64(p.totalLocked, p.stepAmount);
    CeilDivUnique(p.totalLocked, p.stepAmount, helper);
    if helper > UINT32_MAX {
      return Err(IncorrectData);
    }
    StepBounds(p, txAmount);
    WideEnough(p, txAmount);

    var stepCount: u32 := CountSteps(p, txAmount, helper);

    helper := helper * p.stepBlocks;
    var end: u64 := helper + p.start;
    if end > UINT32_MAX {
      return Err(IncorrectData);
    }
    var period: u32 := helper;

    var lastStepAmount: u64 := LastStep(p.totalLocked, p.stepAmount);
    var firstStepBlockCount, firstStepAmount, preVestedAmount := AdaptFirstStep(p, txAmount);
    var firstStepBlock: u32 := (p.start + firstStepBlockCount) % 0x1_0000_0000; // 32-bit sum
    r := Ok(Schedule(p.start, stepCount, p.stepBlocks, period, firstStepBlockCount, firstStepBlock,
                     p.stepAmount, firstStepAmount, lastStepAmount, preVestedAmount));
  }
}
