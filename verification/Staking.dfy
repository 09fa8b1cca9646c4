/** nimiq_staking_utils.c: the data of transactions to and from the staking contract, and what is displayed of them. */
module Staking {
  import opened AddressText
  import opened Amount
  import opened Cursors
  import opened Machine
  import opened ParsedTransaction
  import opened SignatureProof
  import opened Wire

  // Types of the recipient data
  const UPDATE_VALIDATOR: u8 := 1
  const DEACTIVATE_VALIDATOR: u8 := 2
  const REACTIVATE_VALIDATOR: u8 := 3
  const RETIRE_VALIDATOR: u8 := 4
  const CREATE_STAKER: u8 := 5
  const ADD_STAKE: u8 := 6
  const UPDATE_STAKER: u8 := 7
  const SET_ACTIVE_STAKE: u8 := 8
  const RETIRE_STAKE: u8 := 9

  // Types of the sender data
  const DELETE_VALIDATOR: u8 := 0
  const REMOVE_STAKE: u8 := 1

  /** An optional address; the byte before it may be any but zero if there is one. */
  datatype Delegation = Delegation(flag: u8, address: Option<Address>) {
    predicate Valid() {
      flag != 0 <==> address.Some?
    }
  }

  /** What the data say apart from the proof. Any byte but zero for `reactivate` means yes. */
  datatype Body =
    | Create(delegation: Delegation)
    | Add(staker: Address)
    | Update(delegation: Delegation, reactivate: u8)
    | SetActive(amount: u64)
    | Retire(amount: u64)
  {
    predicate Valid() {
      match this
      case Create(d) => d.Valid()
      case Update(d, _) => d.Valid()
      case Add(_) => true
      case SetActive(amount) => amount <= MAX_SAFE_LUNA_AMOUNT
      case Retire(amount) => amount <= MAX_SAFE_LUNA_AMOUNT
    }

    function TypeByte(): u8 {
      match this
      case Create(_) => CREATE_STAKER
      case Add(_) => ADD_STAKE
      case Update(_, _) => UPDATE_STAKER
      case SetActive(_) => SET_ACTIVE_STAKE
      case Retire(_) => RETIRE_STAKE
    }
  }

  /** Everything but the addition of stake is signed by the staker. */
  datatype Action = Action(body: Body, proof: Option<Proof>) {
    predicate Valid() {
      body.Valid() && (proof.None? <==> body.Add?)
    }
  }

  // ---------------------------------------------------------------------------------------------------------------
  // Wire format

  function PutDelegation(d: Delegation): Bytes {
    [d.flag] + if d.address.Some? then d.address.value else []
  }

  function TakeDelegation(s: Bytes): Option<Taken<Delegation>> {
    var flag :- TakeU8(s);
    if flag.value == 0 then Some(Taken(Delegation(0, None), flag.rest))
    else
      var address :- TakeAddress(flag.rest);
      Some(Taken(Delegation(flag.value, Some(address.value)), address.rest))
  }

  /** What is written behind the type byte. */
  function PutFields(b: Body): Bytes {
    match b
    case Create(d) => PutDelegation(d)
    case Add(staker) => staker
    case Update(d, reactivate) => PutDelegation(d) + [reactivate]
    case SetActive(amount) => PutU64(amount)
    case Retire(amount) => PutU64(amount)
  }

  function PutBody(b: Body): Bytes {
    [b.TypeByte()] + PutFields(b)
  }

  function TakeFields(actionType: u8, s: Bytes): Result<Taken<Body>> {
    if actionType == CREATE_STAKER then
      var d :- TakeDelegation(s).OrElse(Read);
      Ok(Taken(Create(d.value), d.rest))
    else if actionType == UPDATE_STAKER then
      var d :- TakeDelegation(s).OrElse(Read);
      var reactivate :- TakeU8(d.rest).OrElse(Read);
      Ok(Taken(Update(d.value, reactivate.value), reactivate.rest))
    else if actionType == ADD_STAKE then
      var staker :- TakeAddress(s).OrElse(Read);
      Ok(Taken(Add(staker.value), staker.rest))
    else if actionType == SET_ACTIVE_STAKE || actionType == RETIRE_STAKE then
      var amount :- TakeU64(s).OrElse(Read);
      if amount.value > MAX_SAFE_LUNA_AMOUNT then Err(IncorrectData)
      else Ok(Taken(if actionType == RETIRE_STAKE then Retire(amount.value) else SetActive(amount.value), amount.rest))
    else
      Err(NotSupported)
  }

  function TakeBody(s: Bytes): Result<Taken<Body>> {
    var actionType :- TakeU8(s).OrElse(Read);
    TakeFields(actionType.value, actionType.rest)
  }

  function PutAction(a: Action): Bytes {
    PutBody(a.body) + if a.proof.Some? then PutProof(a.proof.value) else []
  }

  /** The proof, if there has to be one, and then the end. */
  function TakeLastProof(body: Body, s: Bytes): Result<Option<Proof>> {
    if body.Add? then
      if s == [] then Ok(None) else Err(InvalidLength)
    else
      var proof :- TakeProof(s).OrElse(Read);
      if proof.rest == [] then Ok(Some(proof.value)) else Err(InvalidLength)
  }

  function TakeAction(s: Bytes): Result<Action> {
    var body :- TakeBody(s);
    var proof :- TakeLastProof(body.value, body.rest);
    Ok(Action(body.value, proof))
  }

  lemma TakePutDelegation(d: Delegation, rest: Bytes)
    requires d.Valid()
    ensures TakeDelegation(PutDelegation(d) + rest) == Some(Taken(d, rest))
  {
    var tail := if d.address.Some? then d.address.value else [];
    assert PutDelegation(d) + rest == [d.flag] + (tail + rest);
    TakePutU8(d.flag, tail + rest);
    if d.address.Some? {
      TakePutAddress(d.address.value, rest);
    } else {
      assert tail + rest == rest;
    }
  }

  lemma PutTakenDelegation(s: Bytes)
    requires TakeDelegation(s).Some?
    ensures var t := TakeDelegation(s).value; t.value.Valid() && s == PutDelegation(t.value) + t.rest
  {
    PutTakenU8(s);
    var flag := TakeU8(s).value;
    if flag.value != 0 {
      PutTakenAddress(flag.rest);
    }
  }

  lemma TakePutFields(b: Body, rest: Bytes)
    requires b.Valid()
    ensures TakeFields(b.TypeByte(), PutFields(b) + rest) == Ok(Taken(b, rest))
  {
    match b
    case Create(d) =>
      TakePutDelegation(d, rest);
    case Add(staker) =>
      TakePutAddress(staker, rest);
    case Update(d, reactivate) =>
      assert PutFields(b) + rest == PutDelegation(d) + ([reactivate] + rest);
      TakePutDelegation(d, [reactivate] + rest);
      TakePutU8(reactivate, rest);
    case SetActive(amount) =>
      TakePutU64(amount, rest);
    case Retire(amount) =>
      TakePutU64(amount, rest);
  }

  lemma TakePutBody(b: Body, rest: Bytes)
    requires b.Valid()
    ensures TakeBody(PutBody(b) + rest) == Ok(Taken(b, rest))
  {
    hide PutFields, TakeFields;
    Associative([b.TypeByte()], PutFields(b), rest);
    TakePutU8(b.TypeByte(), PutFields(b) + rest);
    TakePutFields(b, rest);
  }

  lemma PutTakenBody(s: Bytes)
    requires TakeBody(s).Ok?
    ensures var t := TakeBody(s).value; t.value.Valid() && s == PutBody(t.value) + t.rest
  {
    PutTakenU8(s);
    var actionType := TakeU8(s).value;
    var tail := actionType.rest;
    if actionType.value == CREATE_STAKER {
      PutTakenDelegation(tail);
    } else if actionType.value == UPDATE_STAKER {
      PutTakenDelegation(tail);
      PutTakenU8(TakeDelegation(tail).value.rest);
    } else if actionType.value == ADD_STAKE {
      PutTakenAddress(tail);
    } else {
      PutTakenU64(tail);
    }
  }

  /** Serialised data are read back. */
  lemma TakePutAction(a: Action)
    requires a.Valid()
    ensures TakeAction(PutAction(a)) == Ok(a)
  {
    var rest := if a.proof.Some? then PutProof(a.proof.value) else [];
    TakePutBody(a.body, rest);
    if a.proof.Some? {
      TakePutProof(a.proof.value, []);
      assert PutProof(a.proof.value) + [] == PutProof(a.proof.value);
    }
  }

  /** Nothing but serialised data is read. */
  lemma PutTakenAction(s: Bytes)
    requires TakeAction(s).Ok?
    ensures var a := TakeAction(s).value; a.Valid() && PutAction(a) == s
  {
    PutTakenBody(s);
    var body := TakeBody(s).value;
    if !body.value.Add? {
      PutTakenProof(body.rest);
    }
  }

  /** The longest data are those of an update with a new delegation. */
  lemma ActionLength(a: Action)
    requires a.Valid()
    ensures |PutAction(a)| <= 121
    ensures !a.body.Add? ==> |PutAction(a)| >= PROOF_LENGTH
    ensures |PutAction(a)| == 121 <==> a.body.Update? && a.body.delegation.address.Some?
  {
  }

  // ---------------------------------------------------------------------------------------------------------------
  // Display

  /** The staker whose address may have to be shown; unknown as long as the proof is still to be created. */
  function StakerOf(a: Action, addressOf: PublicKey -> Address): Option<Address> {
    match a.body
    case Add(staker) => Some(staker)
    case _ =>
      if a.proof.None? || IsEmptyDefault(a.proof.value) then None else Some(addressOf(a.proof.value.publicKey))
  }

  /** The staker is shown unless it is the sender. */
  function StakerText(a: Action, sender: Address, addressOf: PublicKey -> Address): string {
    var staker := StakerOf(a, addressOf);
    if staker.Some? && staker.value != sender then TextOf(staker.value) else ""
  }

  function DelegationText(d: Delegation): string {
    if d.address.Some? then TextOf(d.address.value) else ""
  }

  function YesNo(b: bool): string {
    if b then "Yes" else "No"
  }

  /** The members that the body fills; the others of the union keep their value. */
  function BodyDisplay(b: Body, init: StakingTx): StakingTx {
    match b
    case Create(d) => init.(actionType := CREATE_STAKER, delegation := DelegationText(d))
    case Add(_) => init.(actionType := ADD_STAKE)
    case Update(d, reactivate) =>
      init.(actionType := UPDATE_STAKER, delegation := DelegationText(d), reactivateAllStake := YesNo(reactivate != 0))
    case SetActive(amount) => init.(actionType := SET_ACTIVE_STAKE, amount := NimText(amount))
    case Retire(amount) => init.(actionType := RETIRE_STAKE, amount := NimText(amount))
  }

  /** The members that the proof fills; `end` is where the data end in memory. */
  function ProofDisplay(a: Action, end: nat, filled: StakingTx): StakingTx {
    if a.body.Add? || end < PROOF_LENGTH then filled.(hasProof := false)
    else filled.(hasProof := true, proof := PointersTo(end))
  }

  /** The filled struct. */
  function DisplayOf(a: Action, sender: Address, addressOf: PublicKey -> Address, end: nat, init: StakingTx):
    StakingTx
  {
    ProofDisplay(a, end, BodyDisplay(a.body, init)).(stakerAddress := StakerText(a, sender, addressOf))
  }

  /** Outcome of parsing the recipient data. */
  function IncomingOutcome(version: u8, data: Bytes): Result<Action> {
    if version == TRANSACTION_VERSION_LEGACY then Err(IncorrectData) else TakeAction(data)
  }

  /** Outcome of parsing the sender data: a single byte. */
  function OutgoingOutcome(version: u8, senderData: Bytes): Result<u8> {
    if version == TRANSACTION_VERSION_LEGACY then Err(IncorrectData)
    else
      var outgoingType :- TakeU8(senderData).OrElse(Read);
      if outgoingType.value != DELETE_VALIDATOR && outgoingType.value != REMOVE_STAKE then Err(IncorrectData)
      else if outgoingType.rest != [] then Err(InvalidLength)
      else Ok(outgoingType.value)
  }

  /** 19 zeros and a one. */
  function StakingContract(): Address {
    seq(20, i => if i == 19 then 1 else 0)
  }

  predicate IsSignaling(actionType: u8) {
    actionType in {UPDATE_VALIDATOR, DEACTIVATE_VALIDATOR, REACTIVATE_VALIDATOR, RETIRE_VALIDATOR, UPDATE_STAKER,
                   SET_ACTIVE_STAKE, RETIRE_STAKE}
  }

  // ---------------------------------------------------------------------------------------------------------------
  // The parsers

  method IsStakingContract(address: Address) returns (b: bool)
    ensures b == (address == StakingContract())
  {
    var i := 0;
    while i < 19
      invariant i <= 19 && forall k :: 0 <= k < i ==> address[k] == 0
    {
      if address[i] != 0 {
        assert StakingContract()[i] == 0;
        return false;
      }
      i := i + 1;
    }
    assert StakingContract()[19] == 1;
    b := address[19] == 1;
    assert b ==> forall k :: 0 <= k < 20 ==> address[k] == StakingContract()[k];
  }

  method ReadDelegation(cursor: Cursor, out: ParsedTx) returns (r: Result<Delegation>)
    requires cursor.Valid()
    modifies cursor, out`staking
    ensures cursor.Valid() && cursor.End() == old(cursor.End())
    ensures r.Ok? <==> TakeDelegation(old(cursor.Rest())).Some?
    ensures r.Err? ==> r.error == Read
    ensures r.Ok? ==> var t := TakeDelegation(old(cursor.Rest())).value;
              && cursor.Rest() == t.rest && r.value.address == t.value.address
              && out.staking == old(out.staking).(delegation := DelegationText(t.value))
  {
    var ok, hasDelegation := cursor.ReadBool();
    if !ok {
      return Err(Read);
    }
    if !hasDelegation {
      out.staking := out.staking.(delegation := "");
      return Ok(Delegation(0, None));
    }
    var address;
    ok, address := cursor.ReadAddress();
    if !ok {
      return Err(Read);
    }
    var text := AddressField(address);
    out.staking := out.staking.(delegation := text);
    return Ok(Delegation(1, Some(address)));
  }

  method ReadAmount(cursor: Cursor, out: ParsedTx) returns (r: Result<()>)
    requires cursor.Valid()
    modifies cursor, out`staking
    ensures cursor.Valid() && cursor.End() == old(cursor.End())
    ensures var t := TakeU64(old(cursor.Rest()));
            if t.None? then r == Err(Read)
            else if t.value.value > MAX_SAFE_LUNA_AMOUNT then r == Err(IncorrectData)
            else r == Ok(()) && cursor.Rest() == t.value.rest
                 && out.staking == old(out.staking).(amount := NimText(t.value.value))
  {
    var ok, amount := cursor.ReadU64();
    if !ok {
      return Err(Read);
    }
    var text :- NimField(amount);
    out.staking := out.staking.(amount := text);
    return Ok(());
  }

  /** The data of a creation or an update. */
  method ReadDelegationFields(actionType: u8, cursor: Cursor, out: ParsedTx) returns (r: Result<()>)
    requires cursor.Valid() && out.staking.actionType == actionType
    requires actionType == CREATE_STAKER || actionType == UPDATE_STAKER
    modifies cursor, out`staking
    ensures cursor.Valid() && cursor.End() == old(cursor.End())
    ensures var t := TakeFields(actionType, old(cursor.Rest()));
            if t.Err? then r == Err(t.error)
            else && r == Ok(()) && cursor.Rest() == t.value.rest
                 && out.staking == BodyDisplay(t.value.value, old(out.staking))
  {
    hide TakeDelegation, TakeU8, DelegationText, YesNo;
    var _ :- ReadDelegation(cursor, out);
    if actionType == UPDATE_STAKER {
      var ok, reactivateAllStake := cursor.ReadBool();
      if !ok {
        return Err(Read);
      }
      out.staking := out.staking.(reactivateAllStake := YesNo(reactivateAllStake));
    }
    return Ok(());
  }

  /** The data for a type, and the staker if it is named there. */
  method ReadFields(actionType: u8, cursor: Cursor, out: ParsedTx) returns (r: Result<Option<Address>>)
    requires cursor.Valid() && out.staking.actionType == actionType
    modifies cursor, out`staking
    ensures cursor.Valid() && cursor.End() == old(cursor.End())
    ensures var t := TakeFields(actionType, old(cursor.Rest()));
            if t.Err? then r == Err(t.error)
            else && r == Ok(if t.value.value.Add? then Some(t.value.value.staker) else None)
                 && cursor.Rest() == t.value.rest && out.staking == BodyDisplay(t.value.value, old(out.staking))
  {
    hide TakeDelegation, TakeU8, TakeU64, TakeAddress, DelegationText, NimText;
    if actionType == CREATE_STAKER || actionType == UPDATE_STAKER {
      var _ :- ReadDelegationFields(actionType, cursor, out);
      return Ok(None);
    } else if actionType == ADD_STAKE {
      var ok, staker := cursor.ReadAddress();
      if !ok {
        return Err(Read);
      }
      return Ok(Some(staker));
    } else if actionType == SET_ACTIVE_STAKE || actionType == RETIRE_STAKE {
      var _ :- ReadAmount(cursor, out);
      return Ok(None);
    }
    return Err(NotSupported);
  }

  /** The switch over the type: fills the members for it and finds the staker if it is named in the data. */
  method ReadBody(cursor: Cursor, out: ParsedTx) returns (r: Result<Option<Address>>)
    requires cursor.Valid()
    modifies cursor, out`staking
    ensures cursor.Valid() && cursor.End() == old(cursor.End())
    ensures var t := TakeBody(old(cursor.Rest()));
            if t.Err? then r == Err(t.error)
            else && r == Ok(if t.value.value.Add? then Some(t.value.value.staker) else None)
                 && cursor.Rest() == t.value.rest && out.staking == BodyDisplay(t.value.value, old(out.staking))
  {
    hide TakeFields, TakeU8;
    var ok, actionType := cursor.ReadU8();
    if !ok {
      return Err(Read);
    }
    out.staking := out.staking.(actionType := actionType);
    r := ReadFields(actionType, cursor, out);
    ghost var s := old(cursor.Rest());
    if TakeBody(s).Ok? {
      SameDisplay(TakeBody(s).value.value, old(out.staking), actionType);
    }
  }

  /** The body sets the type in any case. */
  lemma SameDisplay(b: Body, init: StakingTx, actionType: u8)
    ensures BodyDisplay(b, init.(actionType := actionType)) == BodyDisplay(b, init)
  {
  }

  /** Reads the proof; the staker is known if the proof is not the empty one. */
  method ReadProof(cursor: Cursor, addressOf: PublicKey -> Address, out: ParsedTx) returns (r: Result<Option<Address>>)
    requires cursor.Valid()
    modifies cursor, out`staking
    ensures cursor.Valid() && cursor.End() == old(cursor.End())
    ensures var t := TakeProof(old(cursor.Rest()));
            if t.None? then r == Err(Read)
            else && r == Ok(if IsEmptyDefault(t.value.value) then None else Some(addressOf(t.value.value.publicKey)))
                 && cursor.Rest() == t.value.rest
                 && cursor.End() - |cursor.Rest()| >= PROOF_LENGTH
                 && out.staking == old(out.staking).(
                      hasProof := true, proof := PointersTo(cursor.End() - |cursor.Rest()|))
  {
    var ok, pointers;
    ghost var proof;
    ok, pointers, proof := ReadSignatureProof(cursor);
    if !ok {
      return Err(Read);
    }
    out.staking := out.staking.(hasProof := true, proof := pointers);
    var empty := IsEmptyDefaultSignatureProof(cursor.memory, pointers, proof);
    if empty {
      return Ok(None);
    }
    return Ok(Some(addressOf(Slice(cursor.memory, pointers.publicKey, 32))));
  }

  /** Reads the body and the proof, if there is one, up to the end. */
  method ReadAction(cursor: Cursor, addressOf: PublicKey -> Address, out: ParsedTx) returns (r: Result<Option<Address>>)
    requires cursor.Valid()
    modifies cursor, out`staking
    ensures var t := TakeAction(old(cursor.Rest()));
            if t.Err? then r == Err(t.error)
            else && r == Ok(StakerOf(t.value, addressOf))
                 && out.staking == ProofDisplay(t.value, old(cursor.End()), BodyDisplay(t.value.body, old(out.staking)))
  {
    hide TakeBody, TakeProof, IsEmptyDefault;
    var staker :- ReadBody(cursor, out);
    if out.staking.actionType != ADD_STAKE {
      staker :- ReadProof(cursor, addressOf, out);
    } else {
      out.staking := out.staking.(hasProof := false);
    }
    if cursor.length != 0 {
      return Err(InvalidLength);
    }
    assert cursor.Rest() == [];
    return Ok(staker);
  }

  method ParseStakingIncomingData(version: u8, cursor: Cursor, sender: Address, addressOf: PublicKey -> Address,
                                  out: ParsedTx)
    returns (r: Result<()>)
    requires cursor.Valid()
    modifies cursor, out`staking
    ensures var outcome := IncomingOutcome(version, old(cursor.Rest()));
            if outcome.Err? then r == Err(outcome.error)
            else && r == Ok(())
                 && out.staking == DisplayOf(outcome.value, sender, addressOf, old(cursor.End()), old(out.staking))
  {
    if version == TRANSACTION_VERSION_LEGACY {
      return Err(IncorrectData);
    }
    var staker :- ReadAction(cursor, addressOf, out);
    var text := "";
    if staker.Some? && staker.value != sender {
      text := AddressField(staker.value);
    }
    out.staking := out.staking.(stakerAddress := text);
    return Ok(());
  }

  method ParseStakingOutgoingData(version: u8, cursor: Cursor) returns (r: Result<u8>)
    requires cursor.Valid()
    modifies cursor
    ensures r == OutgoingOutcome(version, old(cursor.Rest()))
  {
    if version == TRANSACTION_VERSION_LEGACY {
      return Err(IncorrectData);
    }
    var ok, outgoingType := cursor.ReadU8();
    if !ok {
      return Err(Read);
    }
    if outgoingType != DELETE_VALIDATOR && outgoingType != REMOVE_STAKE {
      return Err(IncorrectData);
    }
    if cursor.length != 0 {
      return Err(InvalidLength);
    }
    return Ok(outgoingType);
  }
}
