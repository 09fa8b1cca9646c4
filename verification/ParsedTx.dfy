/** The data printed for display: the struct `parsed_tx_t` that the parsers fill. */
module ParsedTransaction {
  import opened Cursors
  import opened Machine

  datatype TransactionType = NORMAL | VESTING_CREATION | HTLC_CREATION | STAKING_INCOMING | STAKING_OUTGOING

  datatype LabelType =
    | REGULAR_TRANSACTION | CASHLINK | VESTING | HTLC
    | CREATE_STAKER_LABEL | ADD_STAKE_LABEL | UPDATE_STAKER_LABEL | SET_ACTIVE_STAKE_LABEL | RETIRE_STAKE_LABEL
    | REMOVE_STAKE_LABEL

  datatype NormalTx = NormalTx(recipient: string, dataLabel: string, extraData: string)

  datatype HtlcTx = HtlcTx(
    isRefundAddressSenderAddress: bool, isTimingOutSoon: bool, isUsingSha256: bool,
    redeemAddress: string, refundAddress: string, hashRoot: string, hashAlgorithm: string, hashCount: string,
    timeout: string)

  datatype VestingTx = VestingTx(
    isOwnerAddressSenderAddress: bool, isMultiStep: bool, ownerAddress: string,
    startBlock: string, period: string, stepCount: string, stepBlockCount: string,
    firstStepBlockCount: string, firstStepBlock: string,
    stepAmount: string, firstStepAmount: string, lastStepAmount: string, preVestedAmount: string)

  /** Pointers into the transaction that is being parsed. */
  datatype ProofPointers = ProofPointers(publicKey: Pointer, signature: Pointer, typeAndFlags: u8, merklePathLength: u8)

  datatype StakingTx = StakingTx(
    actionType: u8, hasProof: bool, proof: ProofPointers, stakerAddress: string,
    delegation: string, reactivateAllStake: string, amount: string)

  /** A snapshot of all members. */
  datatype Parsed = Parsed(
    transactionType: TransactionType, labelType: LabelType, value: string, fee: string, network: string,
    normal: NormalTx, htlc: HtlcTx, vesting: VestingTx, staking: StakingTx)

  /** The struct; the members of its union are kept apart. */
  class ParsedTx {
    var transactionType: TransactionType
    var labelType: LabelType
    var value: string
    var fee: string
    var network: string
    var normal: NormalTx
    var htlc: HtlcTx
    var vesting: VestingTx
    var staking: StakingTx

    function View(): (p: Parsed)
      reads this
    {
      Parsed(transactionType, labelType, value, fee, network, normal, htlc, vesting, staking)
    }

    constructor ()
      ensures View() == Zeroed()
    {
      transactionType, labelType, value, fee, network := NORMAL, REGULAR_TRANSACTION, "", "", "";
      normal, htlc, vesting, staking := Zeroed().normal, Zeroed().htlc, Zeroed().vesting, Zeroed().staking;
    }

    /** `memset(&parsed, 0, sizeof(parsed))` */
    method Wipe()
      modifies this
      ensures View() == Zeroed()
    {
      transactionType, labelType, value, fee, network := NORMAL, REGULAR_TRANSACTION, "", "", "";
      normal, htlc, vesting, staking := Zeroed().normal, Zeroed().htlc, Zeroed().vesting, Zeroed().staking;
    }
  }

  function Zeroed(): Parsed {
    Parsed(NORMAL, REGULAR_TRANSACTION, "", "", "",
           NormalTx("", "", ""),
           HtlcTx(false, false, false, "", "", "", "", "", ""),
           VestingTx(false, false, "", "", "", "", "", "", "", "", "", "", ""),
           StakingTx(0, false, ProofPointers(Null, Null, 0, 0), "", "", "", ""))
  }
}
