/** `parse_tx` on the received memory, with pointers as offsets into it. */
module TransactionParser {
  import opened AddressText
  import opened Amount
  import opened Cursors
  import opened DataField
  import opened Machine
  import opened ParsedTransaction
  import Htlc = HtlcCreation
  import Staking
  import opened Transaction
  import Vesting = VestingCreation
  import opened Wire

  /** The recipient data as a pointer, and the parties. */
  datatype PartyPointers = PartyPointers(data: Pointer, dataLength: u16, parties: Parties)

  ghost predicate PointsToBytes(memory: array<u8>, p: Pointer, length: nat, bytes: Bytes)
    reads memory
  {
    && (if p.Null? then length == 0 else p.offset + length <= memory.Length)
    && Slice(memory, p, length) == bytes
  }

  /** The return value and the struct after a call are those of the outcome. */
  predicate Agrees(r: Result<()>, after: Parsed, outcome: Result<Parsed>) {
    if outcome.Err? then r == Err(outcome.error) else r == Ok(()) && after == outcome.value
  }

  method ReadParties(cursor: Cursor) returns (r: Result<PartyPointers>)
    requires cursor.Valid() && cursor.buffer.At?
    modifies cursor
    ensures cursor.Valid()
    ensures r.Ok? <==> TakeParties(old(cursor.Rest())).Some?
    ensures r.Err? ==> r.error == Read
    ensures r.Ok? ==> && TakeParties(old(cursor.Rest())) == Some(Taken(r.value.parties, cursor.Rest()))
                      && PointsToBytes(cursor.memory, r.value.data, r.value.dataLength, r.value.parties.data)
                      && (r.value.data.At? ==> r.value.data.offset == old(cursor.buffer).offset + 2)
  {
    var ok, dataLength, data, sender, senderType, recipient, recipientType;
    ok, dataLength := cursor.ReadU16();
    if !ok {
      return Err(Read);
    }
    ok, data := cursor.ReadSubBuffer(dataLength);
    if !ok {
      return Err(Read);
    }
    ok, sender := cursor.ReadAddress();
    if !ok {
      return Err(Read);
    }
    ok, senderType := cursor.ReadU8();
    if !ok {
      return Err(Read);
    }
    ok, recipient := cursor.ReadAddress();
    if !ok {
      return Err(Read);
    }
    ok, recipientType := cursor.ReadU8();
    if !ok {
      return Err(Read);
    }
    var bytes := Slice(cursor.memory, data, dataLength);
    return Ok(PartyPointers(data, dataLength, Parties(bytes, sender, senderType, recipient, recipientType)));
  }

  /** Reads and prints the amounts. */
  method ReadAmounts(cursor: Cursor, out: ParsedTx) returns (r: Result<Amounts>)
    requires cursor.Valid()
    modifies cursor, out`value, out`fee
    ensures cursor.Valid()
    ensures var t := TakeAmounts(old(cursor.Rest()));
            if t.Err? then r == Err(t.error)
            else && r == Ok(t.value.value) && cursor.Rest() == t.value.rest
                 && out.value == NimText(r.value.value) && out.fee == NimText(r.value.fee)
  {
    var ok, value, fee;
    ok, value := cursor.ReadU64();
    if !ok {
      return Err(Read);
    }
    var valueText :- NimField(value);
    out.value := valueText;
    ok, fee := cursor.ReadU64();
    if !ok {
      return Err(Read);
    }
    var feeText :- NimField(fee);
    out.fee := feeText;
    return Ok(Amounts(value, fee));
  }

  /** Reads the rest up to the end, and prints the network; the sender data are handed out as a pointer, too. */
  method ReadTrailer(version: u8, cursor: Cursor, out: ParsedTx)
    returns (r: Result<Trailer>, senderData: Pointer, senderDataLength: u16)
    requires cursor.Valid()
    modifies cursor, out`network
    ensures r == TakeTrailer(version, old(cursor.Rest()))
    ensures r.Ok? ==> Some(out.network) == NetworkName(version, r.value.networkId)
    ensures r.Ok? ==> PointsToBytes(cursor.memory, senderData, senderDataLength, r.value.senderData)
  {
    senderData, senderDataLength := Null, 0;
    var ok, validityStartHeight, networkId: u8, flags;
    ok, validityStartHeight := cursor.ReadU32();
    if !ok {
      return Err(Read), Null, 0;
    }
    ok, networkId := cursor.ReadU8();
    if !ok {
      return Err(Read), Null, 0;
    }
    var network := NetworkName(version, networkId);
    if network.None? {
      return Err(IncorrectData), Null, 0;
    }
    out.network := network.value;
    ok, flags := cursor.ReadU8();
    if !ok {
      return Err(Read), Null, 0;
    }
    if version == TRANSACTION_VERSION_ALBATROSS {
      ok, senderData, senderDataLength := cursor.ReadSerdeVecU8();
      if !ok {
        return Err(Read), Null, 0;
      }
    }
    var bytes := Slice(cursor.memory, senderData, senderDataLength);
    if cursor.length != 0 {
      return Err(InvalidLength), Null, 0;
    }
    assert cursor.Rest() == [];
    r := Ok(Trailer(validityStartHeight, networkId, flags, bytes));
  }

  method ParseOutgoing(version: u8, f: Fields, memory: array<u8>, senderData: Pointer, senderDataLength: u16,
                       out: ParsedTx)
    returns (r: Result<()>)
    requires PointsToBytes(memory, senderData, senderDataLength, f.trailer.senderData)
    modifies out
    ensures Agrees(r, out.View(), OutgoingOutcome(version, f, old(out.View())))
  {
    hide Staking.OutgoingOutcome, Staking.StakingContract, TextOf;
    if f.trailer.flags != 0 || |f.parties.data| != 0 {
      return Err(NotSupported);
    }
    var fromContract := Staking.IsStakingContract(f.parties.sender);
    if !fromContract {
      return Err(IncorrectData);
    }
    var cursor := new Cursor(memory, senderData, senderDataLength);
    var outgoingType :- Staking.ParseStakingOutgoingData(version, cursor);
    out.transactionType := STAKING_OUTGOING;
    if outgoingType != Staking.REMOVE_STAKE {
      return Err(NotSupported);
    }
    out.labelType := REMOVE_STAKE_LABEL;
    var recipientText := AddressField(f.parties.recipient);
    out.normal := out.normal.(recipient := recipientText, dataLabel := "", extraData := "");
    return Ok(());
  }

  method ParseRegular(f: Fields, out: ParsedTx) returns (r: Result<()>)
    modifies out
    ensures Agrees(r, out.View(), RegularOutcome(f, old(out.View())))
  {
    if f.trailer.flags != 0 || |f.trailer.senderData| != 0 {
      return Err(NotSupported);
    }
    var isCashlink;
    r, isCashlink := ParseNormalTxData(f.parties.data, out);
    if r.Err? {
      return;
    }
    out.transactionType := NORMAL;
    out.labelType := if isCashlink then CASHLINK else REGULAR_TRANSACTION;
    var recipientText := AddressField(f.parties.recipient);
    out.normal := out.normal.(recipient := recipientText);
  }

  method ParseVesting(version: u8, f: Fields, memory: array<u8>, data: Pointer, dataLength: u16, out: ParsedTx)
    returns (r: Result<()>)
    requires PointsToBytes(memory, data, dataLength, f.parties.data)
    requires f.trailer.flags == TX_FLAG_CONTRACT_CREATION && f.trailer.senderData == []
    modifies out
    ensures Agrees(r, out.View(), VestingOutcome(version, f, old(out.View())))
  {
    hide Vesting.Outcome;
    var cursor := new Cursor(memory, data, dataLength);
    var _ :- Vesting.ParseVestingCreationData(version, cursor, f.parties.sender, f.parties.senderType,
                                              f.amounts.value, out);
    out.transactionType, out.labelType := VESTING_CREATION, VESTING;
    return Ok(());
  }

  method ParseHtlc(version: u8, f: Fields, memory: array<u8>, data: Pointer, dataLength: u16, out: ParsedTx)
    returns (r: Result<()>)
    requires PointsToBytes(memory, data, dataLength, f.parties.data)
    requires f.trailer.flags == TX_FLAG_CONTRACT_CREATION && f.trailer.senderData == []
    modifies out
    ensures Agrees(r, out.View(), HtlcOutcome(version, f, old(out.View())))
  {
    hide Htlc.Outcome;
    var cursor := new Cursor(memory, data, dataLength);
    var _ :- Htlc.ParseHtlcCreationData(version, cursor, f.parties.sender, f.parties.senderType,
                                        f.trailer.validityStartHeight, out);
    out.transactionType, out.labelType := HTLC_CREATION, HTLC;
    return Ok(());
  }

  method ParseContractCreation(version: u8, f: Fields, memory: array<u8>, data: Pointer, dataLength: u16, out: ParsedTx)
    returns (r: Result<()>)
    requires PointsToBytes(memory, data, dataLength, f.parties.data)
    requires f.parties.recipientType == ACCOUNT_TYPE_VESTING || f.parties.recipientType == ACCOUNT_TYPE_HTLC
    modifies out
    ensures Agrees(r, out.View(),
                   if f.parties.recipientType == ACCOUNT_TYPE_VESTING then VestingOutcome(version, f, old(out.View()))
                   else HtlcOutcome(version, f, old(out.View())))
  {
    hide Vesting.Outcome, Htlc.Outcome;
    if f.trailer.flags != TX_FLAG_CONTRACT_CREATION || |f.trailer.senderData| != 0 {
      return Err(NotSupported);
    }
    if f.parties.recipientType == ACCOUNT_TYPE_VESTING {
      r := ParseVesting(version, f, memory, data, dataLength, out);
    } else {
      r := ParseHtlc(version, f, memory, data, dataLength, out);
    }
  }

  function LabelFor(actionType: u8): LabelType {
    if actionType == Staking.CREATE_STAKER then CREATE_STAKER_LABEL
    else if actionType == Staking.ADD_STAKE then ADD_STAKE_LABEL
    else if actionType == Staking.UPDATE_STAKER then UPDATE_STAKER_LABEL
    else if actionType == Staking.SET_ACTIVE_STAKE then SET_ACTIVE_STAKE_LABEL
    else RETIRE_STAKE_LABEL
  }

  method ParseIncoming(version: u8, f: Fields, memory: array<u8>, data: Pointer, dataLength: u16,
                       addressOf: PublicKey -> Address, out: ParsedTx)
    returns (r: Result<()>)
    requires PointsToBytes(memory, data, dataLength, f.parties.data) && (data.At? ==> data.offset == 2)
    modifies out
    ensures Agrees(r, out.View(), IncomingOutcome(version, f, addressOf, old(out.View())))
  {
    if (f.trailer.flags != 0 && f.trailer.flags != TX_FLAG_SIGNALING) || |f.trailer.senderData| != 0 {
      return Err(NotSupported);
    }
    var toContract := Staking.IsStakingContract(f.parties.recipient);
    if !toContract {
      return Err(IncorrectData);
    }
    hide Staking.DisplayOf, Staking.IncomingOutcome, Staking.StakingContract;
    ghost var action;
    r, action := FillIncoming(version, f, memory, data, dataLength, addressOf, out);
    if r.Ok? {
      r := LabelIncoming(f, action.value, out);
    }
  }

  /** Fills the struct with what the data say. */
  method FillIncoming(version: u8, f: Fields, memory: array<u8>, data: Pointer, dataLength: u16,
                      addressOf: PublicKey -> Address, out: ParsedTx)
    returns (r: Result<()>, ghost action: Result<Staking.Action>)
    requires PointsToBytes(memory, data, dataLength, f.parties.data) && (data.At? ==> data.offset == 2)
    modifies out`staking
    ensures action == Staking.IncomingOutcome(version, f.parties.data)
    ensures if action.Err? then r == Err(action.error)
            else && r == Ok(()) && out.staking.actionType == action.value.body.TypeByte()
                 && out.staking
                    == Staking.DisplayOf(action.value, f.parties.sender, addressOf, DataEnd(f), old(out.staking))
  {
    hide Staking.DisplayOf, Staking.IncomingOutcome;
    NoIncomingData(version);
    action := Staking.IncomingOutcome(version, f.parties.data);
    var cursor := new Cursor(memory, data, dataLength);
    assert cursor.Rest() == f.parties.data && (data.At? ==> cursor.End() == DataEnd(f));
    assert data.Null? ==> f.parties.data == [];
    r := Staking.ParseStakingIncomingData(version, cursor, f.parties.sender, addressOf, out);
    if r.Ok? {
      FilledType(action.value, f.parties.sender, addressOf, DataEnd(f), old(out.staking));
    }
  }

  lemma NoIncomingData(version: u8)
    ensures Staking.IncomingOutcome(version, []).Err?
  {
  }

  lemma FilledType(a: Staking.Action, sender: Address, addressOf: PublicKey -> Address, end: nat, init: StakingTx)
    ensures Staking.DisplayOf(a, sender, addressOf, end, init).actionType == a.body.TypeByte()
  {
  }

  /** The label, and the check that the flag is the one for the type of the data. */
  method LabelIncoming(f: Fields, ghost a: Staking.Action, out: ParsedTx) returns (r: Result<()>)
    requires out.staking.actionType == a.body.TypeByte()
    modifies out`transactionType, out`labelType
    ensures r == if (f.trailer.flags == TX_FLAG_SIGNALING) != Staking.IsSignaling(a.body.TypeByte())
                 then Err(IncorrectData) else Ok(())
    ensures out.transactionType == STAKING_INCOMING && out.labelType == IncomingLabel(a.body)
  {
    out.transactionType := STAKING_INCOMING;
    var actionType := out.staking.actionType;
    out.labelType := LabelFor(actionType);
    if (f.trailer.flags == TX_FLAG_SIGNALING) != Staking.IsSignaling(actionType) {
      return Err(IncorrectData);
    }
    return Ok(());
  }

  /** The switch over the account types. */
  method Dispatch(version: u8, f: Fields, memory: array<u8>, data: Pointer, dataLength: u16,
                  senderData: Pointer, senderDataLength: u16, addressOf: PublicKey -> Address, out: ParsedTx)
    returns (r: Result<()>)
    requires PointsToBytes(memory, data, dataLength, f.parties.data) && (data.At? ==> data.offset == 2)
    requires PointsToBytes(memory, senderData, senderDataLength, f.trailer.senderData)
    modifies out
    ensures Agrees(r, out.View(), Interpret(version, f, addressOf, old(out.View())))
  {
    if f.parties.senderType == ACCOUNT_TYPE_STAKING {
      r := ParseOutgoing(version, f, memory, senderData, senderDataLength, out);
    } else if f.parties.recipientType == ACCOUNT_TYPE_BASIC {
      r := ParseRegular(f, out);
    } else if f.parties.recipientType == ACCOUNT_TYPE_VESTING || f.parties.recipientType == ACCOUNT_TYPE_HTLC {
      r := ParseContractCreation(version, f, memory, data, dataLength, out);
    } else if f.parties.recipientType == ACCOUNT_TYPE_STAKING {
      r := ParseIncoming(version, f, memory, data, dataLength, addressOf, out);
    } else {
      r := Err(IncorrectData);
    }
  }

  /** The fields, and where their data stand. */
  datatype FieldPointers = FieldPointers(
    f: Fields, data: Pointer, dataLength: u16, senderData: Pointer, senderDataLength: u16)

  ghost predicate PointsToFields(memory: array<u8>, p: FieldPointers)
    reads memory
  {
    && PointsToBytes(memory, p.data, p.dataLength, p.f.parties.data) && (p.data.At? ==> p.data.offset == 2)
    && PointsToBytes(memory, p.senderData, p.senderDataLength, p.f.trailer.senderData)
  }

  /** Reads all fields and prints those that every transaction has. */
  method ReadFields(version: u8, memory: array<u8>, length: u16, out: ParsedTx) returns (r: Result<FieldPointers>)
    requires length <= memory.Length && Supported(version)
    modifies out
    ensures var t := TakeFields(version, memory[..length]);
            if t.Err? then r == Err(t.error)
            else && r.Ok? && r.value.f == t.value && PointsToFields(memory, r.value)
                 && NetworkName(version, t.value.trailer.networkId).Some?
                 && out.View() == CommonDisplay(version, t.value, old(out.View()))
  {
    var cursor := new Cursor(memory, At(0), length);
    assert cursor.Rest() == memory[..length];
    var parties :- ReadParties(cursor);
    r := ReadFieldsBehind(version, cursor, parties, out);
  }

  /** Reads the fields that follow the parties. */
  method ReadFieldsBehind(version: u8, cursor: Cursor, p: PartyPointers, out: ParsedTx)
    returns (r: Result<FieldPointers>)
    requires cursor.Valid()
    requires PointsToBytes(cursor.memory, p.data, p.dataLength, p.parties.data) && (p.data.At? ==> p.data.offset == 2)
    modifies cursor, out`value, out`fee, out`network
    ensures match TakeFieldsBehind(version, p.parties, old(cursor.Rest()))
            case Err(e) => r == Err(e)
            case Ok(f) =>
              && r.Ok? && r.value.f == f && PointsToFields(cursor.memory, r.value)
              && NetworkName(version, f.trailer.networkId).Some?
              && out.View() == CommonDisplay(version, f, old(out.View()))
  {
    hide TakeAmounts, TakeTrailer, NimText, Slice;
    var amounts :- ReadAmounts(cursor, out);
    var trailer, senderData, senderDataLength := ReadTrailer(version, cursor, out);
    if trailer.Err? {
      return Err(trailer.error);
    }
    ghost var f := Fields(p.parties, amounts, trailer.value);
    assert out.View() == CommonDisplay(version, f, old(out.View())) by {
      assert out.View() == old(out.View()).(value := out.value, fee := out.fee, network := out.network);
    }
    return Ok(FieldPointers(Fields(p.parties, amounts, trailer.value),
                            p.data, p.dataLength, senderData, senderDataLength));
  }

  /** Parses the first `length` bytes of the memory; the memory itself is only read. */
  method ParseTx(version: u8, memory: array<u8>, length: u16, addressOf: PublicKey -> Address, out: ParsedTx)
    returns (r: Result<()>)
    requires length <= memory.Length
    modifies out
    ensures Agrees(r, out.View(), Outcome(version, memory[..length], addressOf, old(out.View())))
  {
    if version != TRANSACTION_VERSION_LEGACY && version != TRANSACTION_VERSION_ALBATROSS {
      return Err(NotSupported);
    }
    var p :- ReadFields(version, memory, length, out);
    r := Dispatch(version, p.f, memory, p.data, p.dataLength, p.senderData, p.senderDataLength, addressOf, out);
  }
}
