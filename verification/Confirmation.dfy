/**
 The complete screen for a transaction of any kind, as `ui_transaction_signing` puts it together: two accepted
 transactions look the same exactly if they are of the same kind and agree in value, fee, network and content.
 */
module Confirmation {
  import opened AddressText
  import opened Amount
  import opened DataField
  import Htlc = HtlcCreation
  import opened Machine
  import opened ParsedTransaction
  import Staking
  import opened Transaction
  import opened TransactionScreen
  import V = VestingScreen
  import Vesting = VestingCreation
  import VS = VestingSchedule

  function TitleOf(title: LabelType): string {
    match title
    case REGULAR_TRANSACTION => "Transaction"
    case CASHLINK => "Cashlink"
    case VESTING => "Vesting"
    case HTLC => "HTLC / Swap"
    case CREATE_STAKER_LABEL => "Create Staker"
    case ADD_STAKE_LABEL => "Add Stake"
    case UPDATE_STAKER_LABEL => "Update Staker"
    case SET_ACTIVE_STAKE_LABEL => "Set Active Stake"
    case RETIRE_STAKE_LABEL => "Retire Stake"
    case REMOVE_STAKE_LABEL => "Unstake"
  }

  /** The titles differ in length or in their first letter. */
  lemma TitlesDistinct(a: LabelType, b: LabelType)
    ensures TitleOf(a) == TitleOf(b) <==> a == b
  {
    TitleShape(a);
    TitleShape(b);
  }

  /** The length and the first letter of a title. */
  function ShapeOf(a: LabelType): (nat, char) {
    match a
    case REGULAR_TRANSACTION => (11, 'T')
    case CASHLINK => (8, 'C')
    case VESTING => (7, 'V')
    case HTLC => (11, 'H')
    case CREATE_STAKER_LABEL => (13, 'C')
    case ADD_STAKE_LABEL => (9, 'A')
    case UPDATE_STAKER_LABEL => (13, 'U')
    case SET_ACTIVE_STAKE_LABEL => (16, 'S')
    case RETIRE_STAKE_LABEL => (12, 'R')
    case REMOVE_STAKE_LABEL => (7, 'U')
  }

  lemma TitleShape(a: LabelType)
    ensures TitleOf(a) != "" && ShapeOf(a) == (|TitleOf(a)|, TitleOf(a)[0])
  {
  }

  /** The entries of the flow for a type of transaction. */
  datatype Entries =
    | NormalEntries(normal: NormalScreen)
    | VestingEntries(vesting: V.Screen)
    | HtlcEntries(htlc: HtlcScreen)
    | StakingEntries(staking: StakingScreen)

  datatype Screen = Screen(
    title: string, amount: Option<string>, fee: Option<string>, network: string, entries: Entries)

  function EntriesOf(p: Parsed): Entries {
    match p.transactionType
    case NORMAL => NormalEntries(NormalScreenOf(p.normal))
    case STAKING_OUTGOING => NormalEntries(NormalScreenOf(p.normal))
    case VESTING_CREATION => VestingEntries(V.ScreenOf(p))
    case HTLC_CREATION => HtlcEntries(HtlcScreenOf(p.htlc))
    case STAKING_INCOMING => StakingEntries(StakingScreenOf(p.labelType, p.staking))
  }

  function ScreenOf(p: Parsed): Screen {
    Screen(TitleOf(p.labelType), Entry(HasAmountEntry(p), p.value), Entry(HasFeeEntry(p), p.fee), p.network,
           EntriesOf(p))
  }

  /**
   What a transaction does, apart from value, fee and network. The sender, the validity start height, the recipient of
   a contract creation, which has to be the contract, and the proof of a staker are not part of it; owners, refund
   addresses and stakers are named unless they are the sender.
   */
  datatype Content =
    | Transfer(recipient: Address, data: Bytes)
    | Unstaking(recipient: Address)
    | Vest(owner: Option<Address>, told: V.Told)
    | Swap(htlc: HtlcContent)
    | Stake(request: StakingRequest)

  type StakingRequest = TransactionScreen.Request

  function ContentOf(f: Fields, kind: Kind, addressOf: PublicKey -> Address): Content
    requires kind.VestingCreation? ==> Vesting.ParamsOf(kind.terms, f.amounts.value).Translatable()
  {
    match kind
    case Regular => Transfer(f.parties.recipient, f.parties.data)
    case VestingCreation(owner, terms) =>
      Vest(V.OwnerOf(owner, f.parties.sender),
           V.ToldOf(VS.ScheduleOf(Vesting.ParamsOf(terms, f.amounts.value), f.amounts.value).value))
    case HtlcCreation(h) => Swap(HtlcContentOf(h, f.parties.sender, f.trailer.validityStartHeight))
    case StakingIncoming(a) => Stake(RequestOf(a, f.parties.sender, addressOf))
    case StakingOutgoing => Unstaking(f.parties.recipient)
  }

  function TypeFor(kind: Kind): TransactionType {
    match kind
    case Regular => NORMAL
    case VestingCreation(_, _) => VESTING_CREATION
    case HtlcCreation(_) => HTLC_CREATION
    case StakingIncoming(_) => STAKING_INCOMING
    case StakingOutgoing => STAKING_OUTGOING
  }

  /** The type is a matter of the kind, and so is whether the title is that of an unstaking. */
  predicate Typed(p: Parsed, kind: Kind) {
    p.transactionType == TypeFor(kind) && (p.labelType == REMOVE_STAKE_LABEL <==> kind.StakingOutgoing?)
  }

  lemma DisplayTyped(version: u8, f: Fields, kind: Kind, addressOf: PublicKey -> Address, init: Parsed)
    requires WellFormed(version, f) && Describes(version, f, kind)
    ensures Typed(DisplayOf(version, f, kind, addressOf, init), kind)
  {
  }

  /** An accepted transaction: its fields, its kind and what is displayed. */
  datatype Accepted = Accepted(version: u8, f: Fields, kind: Kind, shown: Parsed) {
    predicate Valid(addressOf: PublicKey -> Address, init: Parsed) {
      && WellFormed(version, f) && Describes(version, f, kind)
      && shown == DisplayOf(version, f, kind, addressOf, init)
    }

    /** The byte string is this transaction. */
    predicate Stands(v: u8, s: Bytes, addressOf: PublicKey -> Address, init: Parsed) {
      && Valid(addressOf, init) && version == v && s == Serialize(v, f)
      && Outcome(v, s, addressOf, init) == Ok(shown)
    }

    function Network(): Option<string> {
      NetworkName(version, f.trailer.networkId)
    }
  }

  /** Value, fee, network and content are the same. */
  predicate Agree(a: Accepted, b: Accepted, addressOf: PublicKey -> Address, init: Parsed)
    requires a.Valid(addressOf, init) && b.Valid(addressOf, init)
  {
    && a.f.amounts == b.f.amounts && a.Network() == b.Network()
    && ContentOf(a.f, a.kind, addressOf) == ContentOf(b.f, b.kind, addressOf)
  }

  /** Title and entries are the same. */
  predicate LookAlike(p: Parsed, q: Parsed) {
    p.labelType == q.labelType && EntriesOf(p) == EntriesOf(q)
  }

  lemma Transfers(a: Accepted, b: Accepted, addressOf: PublicKey -> Address, init: Parsed)
    requires a.Valid(addressOf, init) && b.Valid(addressOf, init) && a.kind.Regular? && b.kind.Regular?
    ensures LookAlike(a.shown, b.shown) <==> ContentOf(a.f, a.kind, addressOf) == ContentOf(b.f, b.kind, addressOf)
  {
    hide Describes, WellFormed, NormalScreenOf, NormalDisplay, Display;
    NormalScreenDetermines(a.f.parties.recipient, b.f.parties.recipient, a.f.parties.data, b.f.parties.data,
                           init.normal, init.normal);
  }

  lemma Unstakings(a: Accepted, b: Accepted, addressOf: PublicKey -> Address, init: Parsed)
    requires a.Valid(addressOf, init) && b.Valid(addressOf, init)
    requires a.kind.StakingOutgoing? && b.kind.StakingOutgoing?
    ensures LookAlike(a.shown, b.shown) <==> ContentOf(a.f, a.kind, addressOf) == ContentOf(b.f, b.kind, addressOf)
  {
    hide Describes, WellFormed, TextOf;
    TextInjective(a.f.parties.recipient, b.f.parties.recipient);
  }

  lemma Swaps(a: Accepted, b: Accepted, addressOf: PublicKey -> Address, init: Parsed)
    requires a.Valid(addressOf, init) && b.Valid(addressOf, init) && a.kind.HtlcCreation? && b.kind.HtlcCreation?
    ensures LookAlike(a.shown, b.shown) <==> ContentOf(a.f, a.kind, addressOf) == ContentOf(b.f, b.kind, addressOf)
  {
    hide Describes, WellFormed, DisplayOf, HtlcScreenOf, Htlc.DisplayOf, HtlcContentOf;
    SwapShown(a, addressOf, init);
    SwapShown(b, addressOf, init);
    HtlcScreenDetermines(a.kind.htlc, b.kind.htlc, a.f.parties.sender, b.f.parties.sender,
                         a.f.trailer.validityStartHeight, b.f.trailer.validityStartHeight);
  }

  lemma SwapShown(a: Accepted, addressOf: PublicKey -> Address, init: Parsed)
    requires a.Valid(addressOf, init) && a.kind.HtlcCreation?
    ensures a.shown.transactionType == HTLC_CREATION && a.shown.labelType == HTLC && a.kind.htlc.Valid()
    ensures a.shown.htlc == Htlc.DisplayOf(a.kind.htlc, a.f.parties.sender, a.f.trailer.validityStartHeight)
  {
  }

  lemma Stakes(a: Accepted, b: Accepted, addressOf: PublicKey -> Address, init: Parsed)
    requires a.Valid(addressOf, init) && b.Valid(addressOf, init) && a.kind.StakingIncoming? && b.kind.StakingIncoming?
    ensures LookAlike(a.shown, b.shown) <==> ContentOf(a.f, a.kind, addressOf) == ContentOf(b.f, b.kind, addressOf)
  {
    hide Describes, WellFormed, DisplayOf, Staking.DisplayOf, RequestOf;
    StakeShown(a, addressOf, init);
    StakeShown(b, addressOf, init);
    StakingScreenDetermines(a.kind.action, b.kind.action, a.f.parties.sender, b.f.parties.sender, addressOf,
                            DataEnd(a.f), DataEnd(b.f), init.staking, init.staking);
  }

  lemma StakeShown(a: Accepted, addressOf: PublicKey -> Address, init: Parsed)
    requires a.Valid(addressOf, init) && a.kind.StakingIncoming?
    ensures a.shown.transactionType == STAKING_INCOMING && a.shown.labelType == IncomingLabel(a.kind.action.body)
    ensures a.shown.staking
         == Staking.DisplayOf(a.kind.action, a.f.parties.sender, addressOf, DataEnd(a.f), init.staking)
  {
  }

  /** For contracts the amount is one of the entries. */
  lemma Vestings(a: Accepted, b: Accepted, addressOf: PublicKey -> Address, init: Parsed)
    requires a.Valid(addressOf, init) && b.Valid(addressOf, init) && a.kind.VestingCreation? && b.kind.VestingCreation?
    requires a.f.amounts.value == b.f.amounts.value
    ensures LookAlike(a.shown, b.shown) <==> ContentOf(a.f, a.kind, addressOf) == ContentOf(b.f, b.kind, addressOf)
  {
    hide Describes, WellFormed, DisplayOf, V.ScreenOf;
    var d := VestShown(a, addressOf, init);
    var e := VestShown(b, addressOf, init);
    V.VestingScreenDetermines(a.shown, b.shown, d, e, a.f.amounts.value, b.f.amounts.value,
                              a.kind.owner, b.kind.owner, a.f.parties.sender, b.f.parties.sender);
  }

  lemma VestShown(a: Accepted, addressOf: PublicKey -> Address, init: Parsed) returns (d: VS.Schedule)
    requires a.Valid(addressOf, init) && a.kind.VestingCreation?
    ensures a.shown.transactionType == VESTING_CREATION && a.shown.labelType == VESTING
    ensures V.Describes(a.shown, d, a.f.amounts.value, a.kind.owner, a.f.parties.sender)
    ensures ContentOf(a.f, a.kind, addressOf) == Vest(V.OwnerOf(a.kind.owner, a.f.parties.sender), V.ToldOf(d))
  {
    var tx := a.f.amounts.value;
    d := VS.ScheduleOf(Vesting.ParamsOf(a.kind.terms, tx), tx).value;
    V.DisplayPrints(a.kind.owner, a.f.parties.sender, d);
  }

  /** Transactions of different kinds have different titles or flows. */
  lemma OfOneKind(p: Parsed, q: Parsed, k: Kind, l: Kind)
    requires Typed(p, k) && Typed(q, l) && LookAlike(p, q)
    ensures TypeFor(k) == TypeFor(l)
  {
  }

  function TypeOfContent(c: Content): TransactionType {
    match c
    case Transfer(_, _) => NORMAL
    case Unstaking(_) => STAKING_OUTGOING
    case Vest(_, _) => VESTING_CREATION
    case Swap(_) => HTLC_CREATION
    case Stake(_) => STAKING_INCOMING
  }

  lemma ContentTyped(a: Accepted, addressOf: PublicKey -> Address, init: Parsed)
    requires a.Valid(addressOf, init)
    ensures TypeOfContent(ContentOf(a.f, a.kind, addressOf)) == TypeFor(a.kind)
  {
    hide RequestOf, HtlcContentOf, V.ToldOf, V.OwnerOf, DisplayOf;
  }

  lemma SameContent(a: Accepted, b: Accepted, addressOf: PublicKey -> Address, init: Parsed)
    requires a.Valid(addressOf, init) && b.Valid(addressOf, init) && a.f.amounts.value == b.f.amounts.value
    ensures LookAlike(a.shown, b.shown) <==> ContentOf(a.f, a.kind, addressOf) == ContentOf(b.f, b.kind, addressOf)
  {
    hide Describes, WellFormed, DisplayOf, LookAlike, ContentOf;
    if TypeFor(a.kind) == TypeFor(b.kind) {
      SameKind(a, b, addressOf, init);
    } else {
      DisplayTyped(a.version, a.f, a.kind, addressOf, init);
      DisplayTyped(b.version, b.f, b.kind, addressOf, init);
      if LookAlike(a.shown, b.shown) {
        OfOneKind(a.shown, b.shown, a.kind, b.kind);
      }
      ContentTyped(a, addressOf, init);
      ContentTyped(b, addressOf, init);
    }
  }

  lemma SameKind(a: Accepted, b: Accepted, addressOf: PublicKey -> Address, init: Parsed)
    requires a.Valid(addressOf, init) && b.Valid(addressOf, init) && a.f.amounts.value == b.f.amounts.value
    requires TypeFor(a.kind) == TypeFor(b.kind)
    ensures LookAlike(a.shown, b.shown) <==> ContentOf(a.f, a.kind, addressOf) == ContentOf(b.f, b.kind, addressOf)
  {
    hide Describes, WellFormed, DisplayOf, LookAlike, ContentOf;
    match a.kind
    case Regular => Transfers(a, b, addressOf, init);
    case VestingCreation(_, _) => Vestings(a, b, addressOf, init);
    case HtlcCreation(_) => Swaps(a, b, addressOf, init);
    case StakingIncoming(_) => Stakes(a, b, addressOf, init);
    case StakingOutgoing => Unstakings(a, b, addressOf, init);
  }

  /** The members that every screen has. */
  lemma CommonMembers(a: Accepted, addressOf: PublicKey -> Address, init: Parsed)
    requires a.Valid(addressOf, init)
    ensures a.shown.value == NimText(a.f.amounts.value) && a.shown.fee == NimText(a.f.amounts.fee)
    ensures Some(a.shown.network) == a.Network()
  {
  }

  lemma ScreensOfAccepted(a: Accepted, b: Accepted, addressOf: PublicKey -> Address, init: Parsed)
    requires a.Valid(addressOf, init) && b.Valid(addressOf, init)
    ensures ScreenOf(a.shown) == ScreenOf(b.shown)
       <==> Agree(a, b, addressOf, init)
  {
    hide Describes, WellFormed, DisplayOf, ContentOf, EntriesOf;
    CommonMembers(a, addressOf, init);
    CommonMembers(b, addressOf, init);
    TitlesDistinct(a.shown.labelType, b.shown.labelType);
    AmountEntry(a.f.amounts.value, b.f.amounts.value);
    AmountEntry(a.f.amounts.fee, b.f.amounts.fee);
    if a.f.amounts.value == b.f.amounts.value {
      SameContent(a, b, addressOf, init);
    }
  }

  /**
   Two accepted byte strings of any version and kind: their screens are the same if and only if they have the same
   value, fee, network and content.
   */
  lemma ScreenDetermines(va: u8, sa: Bytes, vb: u8, sb: Bytes, addressOf: PublicKey -> Address, init: Parsed)
    returns (a: Accepted, b: Accepted)
    requires Outcome(va, sa, addressOf, init).Ok? && Outcome(vb, sb, addressOf, init).Ok?
    ensures a.Stands(va, sa, addressOf, init) && b.Stands(vb, sb, addressOf, init)
    ensures ScreenOf(a.shown) == ScreenOf(b.shown)
       <==> Agree(a, b, addressOf, init)
  {
    var fa, ka := AcceptedSerialized(va, sa, addressOf, init);
    var fb, kb := AcceptedSerialized(vb, sb, addressOf, init);
    a := Accepted(va, fa, ka, Outcome(va, sa, addressOf, init).value);
    b := Accepted(vb, fb, kb, Outcome(vb, sb, addressOf, init).value);
    ScreensOfAccepted(a, b, addressOf, init);
  }
}
