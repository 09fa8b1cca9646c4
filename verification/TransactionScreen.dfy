/**
 nimiq_ux_utils_transaction_signing.c: which entries of a parsed transaction are shown. The decisions compare printed
 texts; they are proved to be decisions about the numbers and addresses that were printed.
 */
module TransactionScreen {
  import opened AddressText
  import opened Amount
  import opened DataField
  import opened Decimal
  import opened Hex
  import Htlc = HtlcCreation
  import opened Machine
  import opened ParsedTransaction
  import Staking
  import opened Transaction
  import opened Wire

  /** An entry that is shown under a condition. */
  function Entry(shown: bool, text: string): Option<string> {
    if shown then Some(text) else None
  }

  predicate HasAmountEntry(p: Parsed) {
    p.value != "0 NIM"
  }

  predicate HasFeeEntry(p: Parsed) {
    p.fee != "0 NIM"
  }

  /** An amount that is left out is zero. */
  lemma AmountEntry(a: nat, b: nat)
    ensures Entry(NimText(a) != "0 NIM", NimText(a)) == Entry(NimText(b) != "0 NIM", NimText(b)) <==> a == b
  {
    NimTextInjective(a, b);
    NimTextInjective(b, a);
  }

  // ---------------------------------------------------------------------------------------------------------------
  // Normal transactions and those from the staking contract

  predicate HasDataEntry(t: NormalTx) {
    |t.extraData| != 0
  }

  datatype NormalScreen = NormalScreen(recipient: string, data: Option<DataEntry>)

  datatype DataEntry = DataEntry(title: string, text: string)

  function NormalScreenOf(t: NormalTx): NormalScreen {
    NormalScreen(t.recipient, if HasDataEntry(t) then Some(DataEntry(t.dataLabel, t.extraData)) else None)
  }

  /** Together with the title, which tells a Cashlink, the entries of a transfer determine recipient and data. */
  lemma NormalScreenDetermines(a: Address, b: Address, da: Bytes, db: Bytes, ia: NormalTx, ib: NormalTx)
    ensures && NormalScreenOf(NormalDisplay(a, Display(da), ia)) == NormalScreenOf(NormalDisplay(b, Display(db), ib))
            && Display(da).isCashlink == Display(db).isCashlink
       <==> a == b && da == db
  {
    TextInjective(a, b);
    DataEntryDetermines(da, db);
  }

  /** The same Cashlink mark, and the same entry unless there is none. */
  predicate SameEntry(x: Shown, y: Shown) {
    && x.isCashlink == y.isCashlink && (|x.extraData| != 0 <==> |y.extraData| != 0)
    && (|x.extraData| != 0 ==> x.dataLabel == y.dataLabel && x.extraData == y.extraData)
  }

  lemma DataEntryDetermines(da: Bytes, db: Bytes)
    ensures SameEntry(Display(da), Display(db)) <==> da == db
  {
    DisplayLossless(da);
    DisplayLossless(db);
  }

  // ---------------------------------------------------------------------------------------------------------------
  // Hashed time-locked contracts

  predicate HasRefundAddressEntry(t: HtlcTx) {
    !t.isRefundAddressSenderAddress
  }

  predicate HasHashAlgorithmEntry(t: HtlcTx) {
    !t.isRefundAddressSenderAddress || !t.isTimingOutSoon || !t.isUsingSha256
  }

  predicate HasHashCountEntry(t: HtlcTx) {
    t.hashCount != "1" && (!t.isRefundAddressSenderAddress || !t.isTimingOutSoon)
  }

  predicate HasTimeoutEntry(t: HtlcTx) {
    !t.isRefundAddressSenderAddress || !t.isTimingOutSoon
  }

  datatype HtlcScreen = HtlcScreen(
    redeemAddress: string, refundAddress: Option<string>, hashRoot: string, hashAlgorithm: Option<string>,
    hashCount: Option<string>, timeout: Option<string>)

  function HtlcScreenOf(t: HtlcTx): HtlcScreen {
    HtlcScreen(t.redeemAddress, Entry(HasRefundAddressEntry(t), t.refundAddress), t.hashRoot,
               Entry(HasHashAlgorithmEntry(t), t.hashAlgorithm), Entry(HasHashCountEntry(t), t.hashCount),
               Entry(HasTimeoutEntry(t), t.timeout))
  }

  /** The texts of HTLCs and the comparison with "1" stand for their numbers and addresses. */
  lemma HtlcTexts(a: Htlc.Htlc, b: Htlc.Htlc, sa: Address, sb: Address, va: u32, vb: u32)
    requires a.Valid() && b.Valid()
    ensures var t, u := Htlc.DisplayOf(a, sa, va), Htlc.DisplayOf(b, sb, vb);
            && (t.redeemAddress == u.redeemAddress <==> a.redeem == b.redeem)
            && (t.refundAddress == u.refundAddress <==> a.refund == b.refund)
            && (t.hashRoot == u.hashRoot <==> a.root == b.root)
            && (t.hashAlgorithm == u.hashAlgorithm <==> a.algorithm == b.algorithm)
            && (t.hashCount == u.hashCount <==> a.count == b.count) && (t.hashCount == "1" <==> a.count == 1)
            && (u.hashCount == "1" <==> b.count == 1)
            && (t.timeout == u.timeout <==> a.timeout == b.timeout)
  {
    TextInjective(a.redeem, b.redeem);
    TextInjective(a.refund, b.refund);
    HexTextInjective(a.root, b.root);
    AlgorithmNames(a.algorithm, b.algorithm);
    NumeralInjective(a.count, b.count);
    NumeralInjective(a.timeout, b.timeout);
    PrintedAs(a.count, "1", 1);
    PrintedAs(b.count, "1", 1);
  }

  /** A comparison with a numeral of one digit. */
  lemma PrintedAs(n: nat, text: string, digit: nat)
    requires digit < 10 && text == [DigitChar(digit)]
    ensures Numeral(n) == text <==> n == digit
  {
    NumeralInjective(n, digit);
  }

  lemma AlgorithmNames(a: u8, b: u8)
    requires Htlc.AlgorithmName(a).Some? && Htlc.AlgorithmName(b).Some?
    ensures Htlc.AlgorithmName(a) == Htlc.AlgorithmName(b) <==> a == b
  {
    assert "BLAKE2b"[0] != "SHA-256"[0] && "BLAKE2b"[0] != "SHA-512"[0] && "SHA-256"[4] != "SHA-512"[4];
  }

  lemma HtlcScreensEqual(t: HtlcTx, u: HtlcTx)
    ensures HtlcScreenOf(t) == HtlcScreenOf(u) <==>
            && t.redeemAddress == u.redeemAddress && t.hashRoot == u.hashRoot
            && HasRefundAddressEntry(t) == HasRefundAddressEntry(u)
            && HasHashAlgorithmEntry(t) == HasHashAlgorithmEntry(u)
            && HasHashCountEntry(t) == HasHashCountEntry(u) && HasTimeoutEntry(t) == HasTimeoutEntry(u)
            && (HasRefundAddressEntry(t) ==> t.refundAddress == u.refundAddress)
            && (HasHashAlgorithmEntry(t) ==> t.hashAlgorithm == u.hashAlgorithm)
            && (HasHashCountEntry(t) ==> t.hashCount == u.hashCount)
            && (HasTimeoutEntry(t) ==> t.timeout == u.timeout)
  {
  }

  /** A refund to the sender that is due soon, of which the number of hash steps and the timeout are not shown. */
  predicate Harmless(h: Htlc.Htlc, sender: Address, validityStartHeight: u32) {
    h.refund == sender && Htlc.TimingOutSoon(h.timeout, validityStartHeight)
  }

  /** What matters of an HTLC: no refund address stands for the sender, no limits for any that are harmless. */
  datatype HtlcContent = HtlcContent(
    redeem: Address, refund: Option<Address>, algorithm: u8, root: Bytes, limits: Option<HtlcLimits>)

  datatype HtlcLimits = HtlcLimits(count: u8, timeout: u32)

  function HtlcContentOf(h: Htlc.Htlc, sender: Address, validityStartHeight: u32): HtlcContent {
    HtlcContent(h.redeem, if h.refund == sender then None else Some(h.refund), h.algorithm, h.root,
                if Harmless(h, sender, validityStartHeight) then None else Some(HtlcLimits(h.count, h.timeout)))
  }

  /** What is left out can be inferred: contracts look the same exactly if all that matters is the same. */
  lemma HtlcScreenDetermines(a: Htlc.Htlc, b: Htlc.Htlc, sa: Address, sb: Address, va: u32, vb: u32)
    requires a.Valid() && b.Valid()
    ensures HtlcScreenOf(Htlc.DisplayOf(a, sa, va)) == HtlcScreenOf(Htlc.DisplayOf(b, sb, vb))
       <==> HtlcContentOf(a, sa, va) == HtlcContentOf(b, sb, vb)
  {
    HtlcTexts(a, b, sa, sb, va, vb);
    HtlcScreensEqual(Htlc.DisplayOf(a, sa, va), Htlc.DisplayOf(b, sb, vb));
  }

  /**
   The entries for the bytes of an HTLC: for a refund to the sender the timeout is missing exactly if it is less than
   89280 blocks after the validity start height; then the number of hash steps is missing, too, and so is SHA-256. One
   hash step is never mentioned.
   */
  predicate HtlcEntriesFor(screen: HtlcScreen, data: Bytes, sender: Address, validityStartHeight: u32)
    requires |data| == 78 || |data| == 110
  {
    var end, algorithm, own := |data| - 5, data[40], data[..20] == sender;
    var timeout := U32At(data, end + 1);
    var soon := own && timeout < validityStartHeight + 89280;
    && (if |data| == 110 then algorithm == 4 else algorithm == 1 || algorithm == 3)
    && screen.refundAddress == (if own then None else Some(TextOf(data[..20])))
    && screen.redeemAddress == TextOf(data[20..40]) && screen.hashRoot == HexText(data[41..end])
    && screen.hashAlgorithm
       == (if soon && algorithm == 3 then None
           else Some(if algorithm == 1 then "BLAKE2b" else if algorithm == 3 then "SHA-256" else "SHA-512"))
    && screen.hashCount == (if soon || data[end] == 1 then None else Some(Numeral(data[end])))
    && screen.timeout == (if soon then None else Some(Numeral(timeout)))
  }

  /** These are the entries for every HTLC that is accepted. */
  lemma HtlcEntriesAt(version: u8, data: Bytes, sender: Address, senderType: u8, validityStartHeight: u32)
    requires Htlc.Outcome(version, data, sender, senderType, validityStartHeight).Ok?
    ensures |data| == 78 || |data| == 110
    ensures HtlcEntriesFor(HtlcScreenOf(Htlc.Outcome(version, data, sender, senderType, validityStartHeight).value),
                           data, sender, validityStartHeight)
  {
    var h := Htlc.AcceptedData(version, data, sender, senderType, validityStartHeight);
    HtlcBytes(h);
    Htlc.OutcomeOf(h, sender, senderType, validityStartHeight);
    HtlcEntries(h, sender, validityStartHeight);
  }

  /** Where the parts of an HTLC stand. */
  lemma HtlcBytes(h: Htlc.Htlc)
    requires h.Valid()
    ensures var data := Htlc.PutHtlc(h);
            var end := |data| - 5;
            && |data| == (if h.algorithm == 4 then 110 else 78) && data[..20] == h.refund && data[20..40] == h.redeem
            && data[40] == h.algorithm && data[41..end] == h.root && data[end] == h.count
            && U32At(data, end + 1) == h.timeout
  {
    hide TextOf, ToBytes;
    var data := Htlc.PutHtlc(h);
    var end := |data| - 5;
    assert data[end + 1..] == PutU32(h.timeout);
    NumberOfPut(h.timeout);
    NumbersInside(data, end + 1);
  }

  lemma HtlcEntries(h: Htlc.Htlc, sender: Address, validityStartHeight: u32)
    requires h.Valid()
    ensures var screen, own := HtlcScreenOf(Htlc.DisplayOf(h, sender, validityStartHeight)), h.refund == sender;
            var soon := own && h.timeout < validityStartHeight + 89280;
            && screen.refundAddress == (if own then None else Some(TextOf(h.refund)))
            && screen.redeemAddress == TextOf(h.redeem) && screen.hashRoot == HexText(h.root)
            && screen.hashAlgorithm
               == (if soon && h.algorithm == 3 then None
                   else Some(if h.algorithm == 1 then "BLAKE2b" else if h.algorithm == 3 then "SHA-256" else "SHA-512"))
            && screen.hashCount == (if soon || h.count == 1 then None else Some(Numeral(h.count)))
            && screen.timeout == (if soon then None else Some(Numeral(h.timeout)))
  {
    hide TextOf, HexText, Numeral;
    PrintedAs(h.count, "1", 1);
  }

  // ---------------------------------------------------------------------------------------------------------------
  // Transactions to the staking contract

  predicate HasStakeAmountEntry(t: StakingTx) {
    t.actionType == Staking.SET_ACTIVE_STAKE || t.actionType == Staking.RETIRE_STAKE
  }

  predicate HasStakerAddressEntry(t: StakingTx) {
    && (t.actionType == Staking.CREATE_STAKER || t.actionType == Staking.ADD_STAKE
        || t.actionType == Staking.UPDATE_STAKER || t.actionType == Staking.SET_ACTIVE_STAKE
        || t.actionType == Staking.RETIRE_STAKE)
    && |t.stakerAddress| != 0
  }

  predicate HasDelegationEntry(t: StakingTx) {
    (t.actionType == Staking.CREATE_STAKER || t.actionType == Staking.UPDATE_STAKER) && |t.delegation| != 0
  }

  predicate HasReactivateAllStakeEntry(t: StakingTx) {
    t.actionType == Staking.UPDATE_STAKER
  }

  datatype StakingScreen = StakingScreen(
    title: LabelType, amount: Option<string>, staker: Option<string>, delegation: Option<string>,
    reactivateAllStake: Option<string>)

  function StakingScreenOf(title: LabelType, t: StakingTx): StakingScreen {
    StakingScreen(title, Entry(HasStakeAmountEntry(t), t.amount), Entry(HasStakerAddressEntry(t), t.stakerAddress),
                  Entry(HasDelegationEntry(t), t.delegation),
                  Entry(HasReactivateAllStakeEntry(t), t.reactivateAllStake))
  }

  /** What the sender asks for, without the details of the encoding; a staker that is not the sender is named. */
  datatype Request = Request(
    actionType: u8, delegation: Option<Address>, reactivate: bool, amount: nat, staker: Option<Address>)

  function RequestOf(a: Staking.Action, sender: Address, addressOf: PublicKey -> Address): Request {
    var known := Staking.StakerOf(a, addressOf);
    var staker := if known.Some? && known.value != sender then known else None;
    match a.body
    case Create(d) => Request(a.body.TypeByte(), d.address, false, 0, staker)
    case Add(_) => Request(a.body.TypeByte(), None, false, 0, staker)
    case Update(d, reactivate) => Request(a.body.TypeByte(), d.address, reactivate != 0, 0, staker)
    case SetActive(amount) => Request(a.body.TypeByte(), None, false, amount, staker)
    case Retire(amount) => Request(a.body.TypeByte(), None, false, amount, staker)
  }

  /** The text of an address that may be missing: empty exactly if it is. */
  function OptionalText(address: Option<Address>): string {
    if address.Some? then TextOf(address.value) else ""
  }

  lemma OptionalTextInjective(a: Option<Address>, b: Option<Address>)
    ensures OptionalText(a) == OptionalText(b) <==> a == b
    ensures |OptionalText(a)| != 0 <==> a.Some?
  {
    if a.Some? {
      TextInjective(a.value, if b.Some? then b.value else a.value);
    } else if b.Some? {
      TextInjective(b.value, b.value);
    }
  }

  /** The screen as a function of the request and the texts of its addresses. */
  function RequestScreen(title: LabelType, r: Request, staker: string, delegation: string): StakingScreen {
    StakingScreen(
      title, Entry(r.actionType == Staking.SET_ACTIVE_STAKE || r.actionType == Staking.RETIRE_STAKE, NimText(r.amount)),
      Entry(r.staker.Some?, staker), Entry(r.delegation.Some?, delegation),
      Entry(r.actionType == Staking.UPDATE_STAKER, Staking.YesNo(r.reactivate)))
  }

  predicate Fills(t: StakingTx, r: Request, delegation: string) {
    && t.actionType == r.actionType
    && r.actionType in {Staking.CREATE_STAKER, Staking.ADD_STAKE, Staking.UPDATE_STAKER, Staking.SET_ACTIVE_STAKE,
                        Staking.RETIRE_STAKE}
    && (if r.actionType == Staking.CREATE_STAKER || r.actionType == Staking.UPDATE_STAKER
        then t.delegation == delegation else r.delegation.None?)
    && (r.actionType == Staking.UPDATE_STAKER ==> t.reactivateAllStake == Staking.YesNo(r.reactivate))
    && (r.actionType == Staking.SET_ACTIVE_STAKE || r.actionType == Staking.RETIRE_STAKE ==>
          t.amount == NimText(r.amount))
  }

  lemma StructScreen(title: LabelType, t: StakingTx, r: Request, staker: string, delegation: string)
    requires Fills(t, r, delegation) && t.stakerAddress == staker
    requires |staker| != 0 <==> r.staker.Some?
    requires |delegation| != 0 <==> r.delegation.Some?
    ensures StakingScreenOf(title, t) == RequestScreen(title, r, staker, delegation)
  {
  }

  /** Screens are the same if the requests are, the texts of addresses being the same if the addresses are. */
  lemma ScreensEqual(a: Staking.Body, b: Staking.Body, t: StakingTx, u: StakingTx, r: Request, s: Request,
                     delegationT: string, delegationU: string)
    requires Fills(t, r, delegationT) && Fills(u, s, delegationU) && Plain(r) && Plain(s)
    requires r.actionType == a.TypeByte() && s.actionType == b.TypeByte()
    requires |t.stakerAddress| != 0 <==> r.staker.Some?
    requires |u.stakerAddress| != 0 <==> s.staker.Some?
    requires |delegationT| != 0 <==> r.delegation.Some?
    requires |delegationU| != 0 <==> s.delegation.Some?
    requires t.stakerAddress == u.stakerAddress <==> r.staker == s.staker
    requires delegationT == delegationU <==> r.delegation == s.delegation
    ensures StakingScreenOf(IncomingLabel(a), t) == StakingScreenOf(IncomingLabel(b), u) <==> r == s
  {
    StructScreen(IncomingLabel(a), t, r, t.stakerAddress, delegationT);
    StructScreen(IncomingLabel(b), u, s, u.stakerAddress, delegationU);
    NimTextInjective(r.amount, s.amount);
    assert "Yes"[0] != "No"[0];
  }

  /** Parts that a kind of request does not have are not set. */
  predicate Plain(r: Request) {
    && (r.actionType != Staking.UPDATE_STAKER ==> !r.reactivate)
    && (r.actionType != Staking.SET_ACTIVE_STAKE && r.actionType != Staking.RETIRE_STAKE ==> r.amount == 0)
  }

  /** The struct was filled for the request. */
  predicate Represents(t: StakingTx, r: Request) {
    Fills(t, r, OptionalText(r.delegation)) && t.stakerAddress == OptionalText(r.staker) && Plain(r)
  }

  lemma FilledStruct(a: Staking.Action, sender: Address, addressOf: PublicKey -> Address, end: nat, init: StakingTx)
    ensures Represents(Staking.DisplayOf(a, sender, addressOf, end, init), RequestOf(a, sender, addressOf))
    ensures RequestOf(a, sender, addressOf).actionType == a.body.TypeByte()
  {
    hide TextOf, NimText, Staking.YesNo;
    var d := OptionalText(RequestOf(a, sender, addressOf).delegation);
    assert Fills(Staking.BodyDisplay(a.body, init), RequestOf(a, sender, addressOf), d);
  }

  lemma StructsDetermine(a: Staking.Body, b: Staking.Body, t: StakingTx, u: StakingTx, r: Request, s: Request)
    requires Represents(t, r) && Represents(u, s)
    requires r.actionType == a.TypeByte() && s.actionType == b.TypeByte()
    ensures StakingScreenOf(IncomingLabel(a), t) == StakingScreenOf(IncomingLabel(b), u) <==> r == s
  {
    OptionalTextInjective(r.staker, s.staker);
    OptionalTextInjective(s.staker, r.staker);
    OptionalTextInjective(r.delegation, s.delegation);
    OptionalTextInjective(s.delegation, r.delegation);
    ScreensEqual(a, b, t, u, r, s, OptionalText(r.delegation), OptionalText(s.delegation));
  }

  /** Transactions look the same exactly if they ask for the same. */
  lemma StakingScreenDetermines(a: Staking.Action, b: Staking.Action, sa: Address, sb: Address,
                                addressOf: PublicKey -> Address, ea: nat, eb: nat, ia: StakingTx, ib: StakingTx)
    ensures StakingScreenOf(IncomingLabel(a.body), Staking.DisplayOf(a, sa, addressOf, ea, ia))
         == StakingScreenOf(IncomingLabel(b.body), Staking.DisplayOf(b, sb, addressOf, eb, ib))
       <==> RequestOf(a, sa, addressOf) == RequestOf(b, sb, addressOf)
  {
    FilledStruct(a, sa, addressOf, ea, ia);
    FilledStruct(b, sb, addressOf, eb, ib);
    StructsDetermine(
      a.body, b.body, Staking.DisplayOf(a, sa, addressOf, ea, ia), Staking.DisplayOf(b, sb, addressOf, eb, ib),
      RequestOf(a, sa, addressOf), RequestOf(b, sb, addressOf));
  }
}
