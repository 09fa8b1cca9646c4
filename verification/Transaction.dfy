/**
 The wire format of transactions and the outcome of `parse_tx` as a function of the bytes. The format is given by a
 serialiser; exactly the serialisations of supported transactions are accepted, and the parser recovers what was
 serialised.
 */
module Transaction {
  import opened AddressText
  import opened Amount
  import opened DataField
  import opened Machine
  import opened ParsedTransaction
  import Htlc = HtlcCreation
  import SP = SignatureProof
  import Staking
  import Vesting = VestingCreation
  import VS = VestingSchedule
  import opened Wire

  const TX_FLAG_CONTRACT_CREATION: u8 := 1
  const TX_FLAG_SIGNALING: u8 := 2

  /** The app's limit for the length of a transaction. */
  const MAX_RAW_TX := 188

  datatype Parties = Parties(data: Bytes, sender: Address, senderType: u8, recipient: Address, recipientType: u8)

  datatype Amounts = Amounts(value: u64, fee: u64)

  datatype Trailer = Trailer(validityStartHeight: u32, networkId: u8, flags: u8, senderData: Bytes)

  /** The fields of a transaction in the order in which they are serialised. */
  datatype Fields = Fields(parties: Parties, amounts: Amounts, trailer: Trailer)

  predicate Supported(version: u8) {
    version == TRANSACTION_VERSION_LEGACY || version == TRANSACTION_VERSION_ALBATROSS
  }

  function NetworkName(version: u8, networkId: u8): Option<string> {
    if networkId == (if version == TRANSACTION_VERSION_LEGACY then 42 else 24) then Some("Main")
    else if networkId == (if version == TRANSACTION_VERSION_LEGACY then 1 else 5) then Some("Test")
    else if networkId == (if version == TRANSACTION_VERSION_LEGACY then 2 else 6) then Some("Development")
    else if networkId == (if version == TRANSACTION_VERSION_LEGACY then 3 else 7) then Some("Bounty")
    else None
  }

  /** What the format can hold and the app accepts in any kind of transaction. */
  predicate WellFormed(version: u8, f: Fields) {
    && Supported(version)
    && |f.parties.data| <= 0xFFFF
    && f.amounts.value <= MAX_SAFE_LUNA_AMOUNT && f.amounts.fee <= MAX_SAFE_LUNA_AMOUNT
    && NetworkName(version, f.trailer.networkId).Some?
    && |f.trailer.senderData| < 0x80
    && (version == TRANSACTION_VERSION_LEGACY ==> f.trailer.senderData == [])
  }

  // ---------------------------------------------------------------------------------------------------------------
  // Wire format of the fields

  function PutParties(p: Parties): Bytes
    requires |p.data| <= 0xFFFF
  {
    PutU16(|p.data|) + (p.data + (p.sender + ([p.senderType] + (p.recipient + [p.recipientType]))))
  }

  function PutAmounts(a: Amounts): Bytes {
    PutU64(a.value) + PutU64(a.fee)
  }

  /** Sender data exist only since Albatross. */
  function PutTrailer(version: u8, t: Trailer): Bytes
    requires |t.senderData| < 0x80
  {
    PutU32(t.validityStartHeight) + ([t.networkId] + ([t.flags]
    + if version == TRANSACTION_VERSION_ALBATROSS then PutVec(t.senderData) else []))
  }

  function Serialize(version: u8, f: Fields): Bytes
    requires WellFormed(version, f)
  {
    PutParties(f.parties) + (PutAmounts(f.amounts) + PutTrailer(version, f.trailer))
  }

  function TakeParties(s: Bytes): Option<Taken<Parties>> {
    var length :- TakeU16(s);
    var data :- TakeBytes(length.value, length.rest);
    var sender :- TakeAddress(data.rest);
    var senderType :- TakeU8(sender.rest);
    var recipient :- TakeAddress(senderType.rest);
    var recipientType :- TakeU8(recipient.rest);
    Some(Taken(Parties(data.value, sender.value, senderType.value, recipient.value, recipientType.value),
               recipientType.rest))
  }

  /** Each amount is checked before the next one is read. */
  function TakeAmounts(s: Bytes): Result<Taken<Amounts>> {
    var value :- TakeU64(s).OrElse(Read);
    if value.value > MAX_SAFE_LUNA_AMOUNT then Err(IncorrectData)
    else
      var fee :- TakeU64(value.rest).OrElse(Read);
      if fee.value > MAX_SAFE_LUNA_AMOUNT then Err(IncorrectData)
      else Ok(Taken(Amounts(value.value, fee.value), fee.rest))
  }

  function TakeSenderData(version: u8, s: Bytes): Option<Taken<Bytes>> {
    if version == TRANSACTION_VERSION_ALBATROSS then TakeVec(s) else Some(Taken([], s))
  }

  /** The rest of the transaction, up to the end. */
  function TakeTrailer(version: u8, s: Bytes): Result<Trailer> {
    var validityStartHeight :- TakeU32(s).OrElse(Read);
    var networkId :- TakeU8(validityStartHeight.rest).OrElse(Read);
    if NetworkName(version, networkId.value).None? then Err(IncorrectData)
    else
      var flags :- TakeU8(networkId.rest).OrElse(Read);
      var senderData :- TakeSenderData(version, flags.rest).OrElse(Read);
      if senderData.rest != [] then Err(InvalidLength)
      else Ok(Trailer(validityStartHeight.value, networkId.value, flags.value, senderData.value))
  }

  function TakeFields(version: u8, s: Bytes): Result<Fields> {
    var parties :- TakeParties(s).OrElse(Read);
    TakeFieldsBehind(version, parties.value, parties.rest)
  }

  /** The fields behind the parties. */
  function TakeFieldsBehind(version: u8, parties: Parties, s: Bytes): Result<Fields> {
    var amounts :- TakeAmounts(s);
    var trailer :- TakeTrailer(version, amounts.rest);
    Ok(Fields(parties, amounts.value, trailer))
  }

  lemma TakePutParties(p: Parties, rest: Bytes)
    requires |p.data| <= 0xFFFF
    ensures TakeParties(PutParties(p) + rest) == Some(Taken(p, rest))
  {
    var s4 := [p.recipientType] + rest;
    var s3 := p.recipient + s4;
    var s2 := [p.senderType] + s3;
    var s1 := p.sender + s2;
    assert PutParties(p) + rest == PutU16(|p.data|) + (p.data + s1);
    TakePutU16(|p.data|, p.data + s1);
    TakePutBytes(p.data, s1);
    TakePutAddress(p.sender, s2);
    TakePutU8(p.senderType, s3);
    TakePutAddress(p.recipient, s4);
    TakePutU8(p.recipientType, rest);
  }

  lemma PutTakenParties(s: Bytes)
    requires TakeParties(s).Some?
    ensures var t := TakeParties(s).value; |t.value.data| <= 0xFFFF && s == PutParties(t.value) + t.rest
  {
    var length := TakeU16(s).value;
    var data := TakeBytes(length.value, length.rest).value;
    var sender := TakeAddress(data.rest).value;
    var senderType := TakeU8(sender.rest).value;
    var recipient := TakeAddress(senderType.rest).value;
    PutTakenU16(s);
    PutTakenBytes(length.value, length.rest);
    PutTakenAddress(data.rest);
    PutTakenU8(sender.rest);
    PutTakenAddress(senderType.rest);
    PutTakenU8(recipient.rest);
  }

  lemma TakePutAmounts(a: Amounts, rest: Bytes)
    requires a.value <= MAX_SAFE_LUNA_AMOUNT && a.fee <= MAX_SAFE_LUNA_AMOUNT
    ensures TakeAmounts(PutAmounts(a) + rest) == Ok(Taken(a, rest))
  {
    assert PutAmounts(a) + rest == PutU64(a.value) + (PutU64(a.fee) + rest);
    TakePutU64(a.value, PutU64(a.fee) + rest);
    TakePutU64(a.fee, rest);
  }

  lemma PutTakenAmounts(s: Bytes)
    requires TakeAmounts(s).Ok?
    ensures var t := TakeAmounts(s).value; s == PutAmounts(t.value) + t.rest
  {
    PutTakenU64(s);
    PutTakenU64(TakeU64(s).value.rest);
  }

  lemma TakePutTrailer(version: u8, t: Trailer)
    requires |t.senderData| < 0x80 && NetworkName(version, t.networkId).Some?
    requires version != TRANSACTION_VERSION_ALBATROSS ==> t.senderData == []
    ensures TakeTrailer(version, PutTrailer(version, t)) == Ok(t)
  {
    var s2 := if version == TRANSACTION_VERSION_ALBATROSS then PutVec(t.senderData) else [];
    var s1 := [t.flags] + s2;
    TakePutU32(t.validityStartHeight, [t.networkId] + s1);
    TakePutU8(t.networkId, s1);
    TakePutU8(t.flags, s2);
    TakePutVec(t.senderData, []);
    assert PutVec(t.senderData) + [] == PutVec(t.senderData);
  }

  lemma PutTakenTrailer(version: u8, s: Bytes)
    requires TakeTrailer(version, s).Ok?
    ensures var t := TakeTrailer(version, s).value; |t.senderData| < 0x80 && s == PutTrailer(version, t)
    ensures var t := TakeTrailer(version, s).value; version != TRANSACTION_VERSION_ALBATROSS ==> t.senderData == []
  {
    PutTakenU32(s);
    var networkAt := TakeU32(s).value.rest;
    PutTakenU8(networkAt);
    var flagsAt := TakeU8(networkAt).value.rest;
    PutTakenU8(flagsAt);
    var senderDataAt := TakeU8(flagsAt).value.rest;
    if version == TRANSACTION_VERSION_ALBATROSS {
      PutTakenVec(senderDataAt);
    }
  }

  /** Every field of a serialised transaction is recovered. */
  lemma FieldsRoundTrip(version: u8, f: Fields)
    requires WellFormed(version, f)
    ensures TakeFields(version, Serialize(version, f)) == Ok(f)
  {
    TakePutParties(f.parties, PutAmounts(f.amounts) + PutTrailer(version, f.trailer));
    TakePutAmounts(f.amounts, PutTrailer(version, f.trailer));
    TakePutTrailer(version, f.trailer);
  }

  /** Whatever is split into fields is the serialisation of these fields: no byte is skipped or read twice. */
  lemma FieldsExact(version: u8, s: Bytes)
    requires Supported(version) && TakeFields(version, s).Ok?
    ensures var f := TakeFields(version, s).value; WellFormed(version, f) && s == Serialize(version, f)
  {
    PutTakenParties(s);
    var parties := TakeParties(s).value;
    PutTakenAmounts(parties.rest);
    var amounts := TakeAmounts(parties.rest).value;
    PutTakenTrailer(version, amounts.rest);
  }

  // ---------------------------------------------------------------------------------------------------------------
  // Kinds of transactions

  /** The supported kinds, with what their data say. */
  datatype Kind =
    | Regular
    | VestingCreation(owner: Address, terms: Vesting.Terms)
    | HtlcCreation(htlc: Htlc.Htlc)
    | StakingIncoming(action: Staking.Action)
    | StakingOutgoing

  /** The contract that creates the sender may not be the owner of the new one. */
  predicate NotAContract(f: Fields, address: Address) {
    address == f.parties.sender ==> f.parties.senderType == ACCOUNT_TYPE_BASIC
  }

  predicate DescribesVesting(version: u8, f: Fields, owner: Address, terms: Vesting.Terms) {
    && version == TRANSACTION_VERSION_LEGACY && f.trailer.flags == TX_FLAG_CONTRACT_CREATION
    && f.parties.data == Vesting.PutVesting(owner, terms) && NotAContract(f, owner)
    && var p := Vesting.ParamsOf(terms, f.amounts.value);
       p.Translatable() && (p.Immediate() || p.stepAmount <= MAX_SAFE_LUNA_AMOUNT)
  }

  predicate DescribesHtlc(version: u8, f: Fields, h: Htlc.Htlc) {
    && version == TRANSACTION_VERSION_LEGACY && f.trailer.flags == TX_FLAG_CONTRACT_CREATION
    && h.Valid() && f.parties.data == Htlc.PutHtlc(h) && NotAContract(f, h.refund)
  }

  predicate DescribesIncoming(version: u8, f: Fields, a: Staking.Action) {
    && version == TRANSACTION_VERSION_ALBATROSS && f.parties.recipient == Staking.StakingContract()
    && a.Valid() && f.parties.data == Staking.PutAction(a)
    && f.trailer.flags == if Staking.IsSignaling(a.body.TypeByte()) then TX_FLAG_SIGNALING else 0
  }

  predicate DescribesOutgoing(version: u8, f: Fields) {
    && version == TRANSACTION_VERSION_ALBATROSS && f.parties.sender == Staking.StakingContract()
    && f.trailer.flags == 0 && f.parties.data == [] && f.trailer.senderData == [Staking.REMOVE_STAKE]
  }

  /** The kind of transaction is a matter of the account types, and the fields are in order for this kind. */
  predicate Describes(version: u8, f: Fields, kind: Kind) {
    if f.parties.senderType == ACCOUNT_TYPE_STAKING then
      kind.StakingOutgoing? && DescribesOutgoing(version, f)
    else
      && f.trailer.senderData == []
      && match kind
         case Regular =>
           && f.parties.recipientType == ACCOUNT_TYPE_BASIC && f.trailer.flags == 0
           && |f.parties.data| <= LENGTH_NORMAL_TX_DATA_MAX
         case VestingCreation(owner, terms) =>
           f.parties.recipientType == ACCOUNT_TYPE_VESTING && DescribesVesting(version, f, owner, terms)
         case HtlcCreation(h) =>
           f.parties.recipientType == ACCOUNT_TYPE_HTLC && DescribesHtlc(version, f, h)
         case StakingIncoming(a) =>
           f.parties.recipientType == ACCOUNT_TYPE_STAKING && DescribesIncoming(version, f, a)
         case StakingOutgoing => false
  }

  // ---------------------------------------------------------------------------------------------------------------
  // Outcome of parsing

  function NormalDisplay(recipient: Address, shown: Shown, init: NormalTx): NormalTx {
    init.(recipient := TextOf(recipient), dataLabel := shown.dataLabel, extraData := shown.extraData)
  }

  function OutgoingOutcome(version: u8, f: Fields, init: Parsed): Result<Parsed> {
    if f.trailer.flags != 0 || f.parties.data != [] then Err(NotSupported)
    else if f.parties.sender != Staking.StakingContract() then Err(IncorrectData)
    else
      var outgoingType :- Staking.OutgoingOutcome(version, f.trailer.senderData);
      if outgoingType != Staking.REMOVE_STAKE then Err(NotSupported)
      else Ok(init.(transactionType := STAKING_OUTGOING, labelType := REMOVE_STAKE_LABEL,
                    normal := NormalDisplay(f.parties.recipient, Shown(false, "", ""), init.normal)))
  }

  function RegularOutcome(f: Fields, init: Parsed): Result<Parsed> {
    if f.trailer.flags != 0 || f.trailer.senderData != [] then Err(NotSupported)
    else if |f.parties.data| > LENGTH_NORMAL_TX_DATA_MAX then Err(InvalidLength)
    else
      var shown := Display(f.parties.data);
      Ok(init.(transactionType := NORMAL, labelType := if shown.isCashlink then CASHLINK else REGULAR_TRANSACTION,
               normal := NormalDisplay(f.parties.recipient, shown, init.normal)))
  }

  function VestingOutcome(version: u8, f: Fields, init: Parsed): Result<Parsed> {
    if f.trailer.flags != TX_FLAG_CONTRACT_CREATION || f.trailer.senderData != [] then Err(NotSupported)
    else
      var vesting :- Vesting.Outcome(version, f.parties.data, f.parties.sender, f.parties.senderType, f.amounts.value);
      Ok(init.(transactionType := VESTING_CREATION, labelType := VESTING, vesting := vesting))
  }

  function HtlcOutcome(version: u8, f: Fields, init: Parsed): Result<Parsed> {
    if f.trailer.flags != TX_FLAG_CONTRACT_CREATION || f.trailer.senderData != [] then Err(NotSupported)
    else
      var htlc :- Htlc.Outcome(version, f.parties.data, f.parties.sender, f.parties.senderType,
                               f.trailer.validityStartHeight);
      Ok(init.(transactionType := HTLC_CREATION, labelType := HTLC, htlc := htlc))
  }

  function IncomingLabel(b: Staking.Body): LabelType {
    match b
    case Create(_) => CREATE_STAKER_LABEL
    case Add(_) => ADD_STAKE_LABEL
    case Update(_, _) => UPDATE_STAKER_LABEL
    case SetActive(_) => SET_ACTIVE_STAKE_LABEL
    case Retire(_) => RETIRE_STAKE_LABEL
  }

  /** Where the recipient data end in the transaction. */
  function DataEnd(f: Fields): nat {
    2 + |f.parties.data|
  }

  function IncomingDisplay(f: Fields, a: Staking.Action, addressOf: PublicKey -> Address, init: Parsed): Parsed {
    init.(transactionType := STAKING_INCOMING, labelType := IncomingLabel(a.body),
          staking := Staking.DisplayOf(a, f.parties.sender, addressOf, DataEnd(f), init.staking))
  }

  function IncomingOutcome(version: u8, f: Fields, addressOf: PublicKey -> Address, init: Parsed): Result<Parsed> {
    if (f.trailer.flags != 0 && f.trailer.flags != TX_FLAG_SIGNALING) || f.trailer.senderData != [] then
      Err(NotSupported)
    else if f.parties.recipient != Staking.StakingContract() then Err(IncorrectData)
    else
      var a :- Staking.IncomingOutcome(version, f.parties.data);
      if (f.trailer.flags == TX_FLAG_SIGNALING) != Staking.IsSignaling(a.body.TypeByte()) then Err(IncorrectData)
      else Ok(IncomingDisplay(f, a, addressOf, init))
  }

  /** The outcome for fields that were read, depending on the account types. */
  function Interpret(version: u8, f: Fields, addressOf: PublicKey -> Address, init: Parsed): Result<Parsed> {
    if f.parties.senderType == ACCOUNT_TYPE_STAKING then OutgoingOutcome(version, f, init)
    else if f.parties.recipientType == ACCOUNT_TYPE_BASIC then RegularOutcome(f, init)
    else if f.parties.recipientType == ACCOUNT_TYPE_VESTING then VestingOutcome(version, f, init)
    else if f.parties.recipientType == ACCOUNT_TYPE_HTLC then HtlcOutcome(version, f, init)
    else if f.parties.recipientType == ACCOUNT_TYPE_STAKING then IncomingOutcome(version, f, addressOf, init)
    else Err(IncorrectData)
  }

  /** The members that are filled for every kind of transaction. */
  function CommonDisplay(version: u8, f: Fields, init: Parsed): Parsed
    requires NetworkName(version, f.trailer.networkId).Some?
  {
    init.(value := NimText(f.amounts.value), fee := NimText(f.amounts.fee),
          network := NetworkName(version, f.trailer.networkId).value)
  }

  /** The outcome of `parse_tx`, with the errors in the order in which they are detected. */
  function Outcome(version: u8, s: Bytes, addressOf: PublicKey -> Address, init: Parsed): Result<Parsed> {
    if !Supported(version) then Err(NotSupported)
    else
      var f :- TakeFields(version, s);
      FieldsExact(version, s);
      Interpret(version, f, addressOf, CommonDisplay(version, f, init))
  }

  // ---------------------------------------------------------------------------------------------------------------
  // What is accepted

  /** What is displayed for a transaction of a kind. */
  function DisplayOf(version: u8, f: Fields, kind: Kind, addressOf: PublicKey -> Address, init: Parsed): Parsed
    requires WellFormed(version, f) && Describes(version, f, kind)
  {
    var common := CommonDisplay(version, f, init);
    match kind
    case Regular =>
      var shown := Display(f.parties.data);
      common.(transactionType := NORMAL, labelType := if shown.isCashlink then CASHLINK else REGULAR_TRANSACTION,
              normal := NormalDisplay(f.parties.recipient, shown, init.normal))
    case VestingCreation(owner, terms) =>
      var d := VS.ScheduleOf(Vesting.ParamsOf(terms, f.amounts.value), f.amounts.value).value;
      common.(transactionType := VESTING_CREATION, labelType := VESTING,
              vesting := Vesting.DisplayOf(owner, f.parties.sender, d))
    case HtlcCreation(h) =>
      common.(transactionType := HTLC_CREATION, labelType := HTLC,
              htlc := Htlc.DisplayOf(h, f.parties.sender, f.trailer.validityStartHeight))
    case StakingIncoming(a) =>
      IncomingDisplay(f, a, addressOf, common)
    case StakingOutgoing =>
      common.(transactionType := STAKING_OUTGOING, labelType := REMOVE_STAKE_LABEL,
              normal := NormalDisplay(f.parties.recipient, Shown(false, "", ""), init.normal))
  }

  lemma InterpretDescribed(version: u8, f: Fields, kind: Kind, addressOf: PublicKey -> Address, init: Parsed)
    requires WellFormed(version, f) && Describes(version, f, kind)
    ensures Interpret(version, f, addressOf, CommonDisplay(version, f, init))
         == Ok(DisplayOf(version, f, kind, addressOf, init))
  {
    hide Display, TextOf, Vesting.Outcome, Vesting.DisplayOf, Htlc.Outcome, Htlc.DisplayOf, Staking.DisplayOf,
         Staking.TakeAction, VS.ScheduleOf;
    match kind
    case Regular =>
    case VestingCreation(owner, terms) =>
      Vesting.OutcomeOf(owner, terms, f.parties.sender, f.parties.senderType, f.amounts.value);
    case HtlcCreation(h) =>
      Htlc.OutcomeOf(h, f.parties.sender, f.parties.senderType, f.trailer.validityStartHeight);
    case StakingIncoming(a) =>
      Staking.TakePutAction(a);
    case StakingOutgoing =>
  }

  /** The serialisation of any supported transaction is accepted, and every field is recovered for display. */
  lemma SerializedAccepted(version: u8, f: Fields, kind: Kind, addressOf: PublicKey -> Address, init: Parsed)
    requires WellFormed(version, f) && Describes(version, f, kind)
    ensures Outcome(version, Serialize(version, f), addressOf, init)
         == Ok(DisplayOf(version, f, kind, addressOf, init))
  {
    FieldsRoundTrip(version, f);
    InterpretDescribed(version, f, kind, addressOf, init);
  }

  lemma DescribeVesting(version: u8, f: Fields, init: Parsed) returns (owner: Address, terms: Vesting.Terms)
    requires WellFormed(version, f) && VestingOutcome(version, f, init).Ok?
    ensures f.trailer.senderData == [] && DescribesVesting(version, f, owner, terms)
  {
    owner, terms := Vesting.AcceptedData(version, f.parties.data, f.parties.sender, f.parties.senderType,
                                         f.amounts.value);
  }

  lemma DescribeHtlc(version: u8, f: Fields, init: Parsed) returns (h: Htlc.Htlc)
    requires WellFormed(version, f) && HtlcOutcome(version, f, init).Ok?
    ensures f.trailer.senderData == [] && DescribesHtlc(version, f, h)
  {
    h := Htlc.AcceptedData(version, f.parties.data, f.parties.sender, f.parties.senderType,
                           f.trailer.validityStartHeight);
  }

  lemma DescribeIncoming(version: u8, f: Fields, addressOf: PublicKey -> Address, init: Parsed)
    returns (a: Staking.Action)
    requires WellFormed(version, f) && IncomingOutcome(version, f, addressOf, init).Ok?
    ensures f.trailer.senderData == [] && DescribesIncoming(version, f, a)
  {
    Staking.PutTakenAction(f.parties.data);
    a := Staking.TakeAction(f.parties.data).value;
  }

  lemma DescribeOutgoing(version: u8, f: Fields, init: Parsed)
    requires WellFormed(version, f) && OutgoingOutcome(version, f, init).Ok?
    ensures DescribesOutgoing(version, f)
  {
    PutTakenU8(f.trailer.senderData);
  }

  lemma DescribeInterpreted(version: u8, f: Fields, addressOf: PublicKey -> Address, init: Parsed) returns (kind: Kind)
    requires WellFormed(version, f) && Interpret(version, f, addressOf, init).Ok?
    ensures Describes(version, f, kind)
  {
    if f.parties.senderType == ACCOUNT_TYPE_STAKING {
      DescribeOutgoing(version, f, init);
      kind := StakingOutgoing;
    } else if f.parties.recipientType == ACCOUNT_TYPE_BASIC {
      kind := Regular;
    } else if f.parties.recipientType == ACCOUNT_TYPE_VESTING {
      var owner, terms := DescribeVesting(version, f, init);
      kind := VestingCreation(owner, terms);
    } else if f.parties.recipientType == ACCOUNT_TYPE_HTLC {
      var h := DescribeHtlc(version, f, init);
      kind := HtlcCreation(h);
    } else {
      var a := DescribeIncoming(version, f, addressOf, init);
      kind := StakingIncoming(a);
    }
  }

  /** Nothing but the serialisations of supported transactions is accepted. */
  lemma AcceptedSerialized(version: u8, s: Bytes, addressOf: PublicKey -> Address, init: Parsed)
    returns (f: Fields, kind: Kind)
    requires Outcome(version, s, addressOf, init).Ok?
    ensures WellFormed(version, f) && Describes(version, f, kind) && s == Serialize(version, f)
    ensures Outcome(version, s, addressOf, init) == Ok(DisplayOf(version, f, kind, addressOf, init))
  {
    FieldsExact(version, s);
    f := TakeFields(version, s).value;
    kind := DescribeInterpreted(version, f, addressOf, CommonDisplay(version, f, init));
    SerializedAccepted(version, f, kind, addressOf, init);
  }

  // ---------------------------------------------------------------------------------------------------------------
  // Length

  lemma SerializedLength(version: u8, f: Fields)
    requires WellFormed(version, f)
    ensures |Serialize(version, f)| == |f.parties.data| + |f.trailer.senderData| + 66
                                     + if version == TRANSACTION_VERSION_ALBATROSS then 1 else 0
  {
  }

  /** No accepted transaction is longer than the buffer. */
  lemma AcceptedLength(version: u8, s: Bytes, addressOf: PublicKey -> Address, init: Parsed)
    requires Outcome(version, s, addressOf, init).Ok?
    ensures |s| <= MAX_RAW_TX
  {
    var f, kind := AcceptedSerialized(version, s, addressOf, init);
    SerializedLength(version, f);
    DescribedLength(version, f, kind);
  }

  lemma DescribedLength(version: u8, f: Fields, kind: Kind)
    requires WellFormed(version, f) && Describes(version, f, kind)
    ensures |f.parties.data| + |f.trailer.senderData| <= 121
  {
    match kind
    case StakingIncoming(a) =>
      Staking.ActionLength(a);
    case _ =>
  }

  /** The buffer is no longer than necessary. */
  lemma LongestAccepted(addressOf: PublicKey -> Address, init: Parsed) returns (s: Bytes)
    ensures |s| == MAX_RAW_TX && Outcome(TRANSACTION_VERSION_ALBATROSS, s, addressOf, init).Ok?
  {
    var zero: Address := seq(20, _ => 0);
    var proof := SP.Proof(seq(32, _ => 0), seq(64, _ => 0));
    var action := Staking.Action(Staking.Update(Staking.Delegation(1, Some(zero)), 1), Some(proof));
    var f := Fields(Parties(Staking.PutAction(action), zero, ACCOUNT_TYPE_BASIC,
                            Staking.StakingContract(), ACCOUNT_TYPE_STAKING),
                    Amounts(0, 0), Trailer(0, 24, TX_FLAG_SIGNALING, []));
    Staking.ActionLength(action);
    SerializedAccepted(TRANSACTION_VERSION_ALBATROSS, f, StakingIncoming(action), addressOf, init);
    s := Serialize(TRANSACTION_VERSION_ALBATROSS, f);
    SerializedLength(TRANSACTION_VERSION_ALBATROSS, f);
  }
}
