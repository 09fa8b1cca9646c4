/** `parse_htlc_creation_data`: the recipient data of a hashed time-locked contract and what is displayed of it. */
module HtlcCreation {
  import opened AddressText
  import opened Cursors
  import opened DataField
  import opened Decimal
  import opened Hex
  import opened Machine
  import opened ParsedTransaction
  import opened Wire

  const HASH_ALGORITHM_BLAKE2B: u8 := 1
  const HASH_ALGORITHM_SHA256: u8 := 3
  const HASH_ALGORITHM_SHA512: u8 := 4

  /** Two months of blocks. */
  const HTLC_TIMEOUT_SOON_THRESHOLD := 60 * 24 * 31 * 2

  /** Printed hash roots have up to 64 bytes. */
  const HASH_ROOT_LENGTH := 129

  datatype Htlc = Htlc(refund: Address, redeem: Address, algorithm: u8, root: Bytes, count: u8, timeout: u32) {
    /** The supported algorithms, with a hash root of their size; ARGON2d is not among them. */
    predicate Valid() {
      && (algorithm == HASH_ALGORITHM_BLAKE2B || algorithm == HASH_ALGORITHM_SHA256
          || algorithm == HASH_ALGORITHM_SHA512)
      && |root| == HashSize(algorithm)
    }
  }

  function HashSize(algorithm: u8): nat {
    if algorithm == HASH_ALGORITHM_SHA512 then 64 else 32
  }

  function AlgorithmName(algorithm: u8): Option<string> {
    if algorithm == HASH_ALGORITHM_BLAKE2B then Some("BLAKE2b")
    else if algorithm == HASH_ALGORITHM_SHA256 then Some("SHA-256")
    else if algorithm == HASH_ALGORITHM_SHA512 then Some("SHA-512")
    else None
  }

  function PutHtlc(h: Htlc): Bytes {
    h.refund + (h.redeem + ([h.algorithm] + (h.root + ([h.count] + (PutU32(h.timeout) + [])))))
  }

  /** What follows the refund address. */
  function TakeTerms(refund: Address, s: Bytes): Result<Htlc> {
    var redeem :- TakeAddress(s).OrElse(Read);
    var algorithm :- TakeU8(redeem.rest).OrElse(Read);
    if AlgorithmName(algorithm.value).None? then Err(IncorrectData)
    else
      var root :- TakeBytes(HashSize(algorithm.value), algorithm.rest).OrElse(Read);
      var count :- TakeU8(root.rest).OrElse(Read);
      var timeout :- TakeU32(count.rest).OrElse(Read);
      if timeout.rest != [] then Err(InvalidLength)
      else Ok(Htlc(refund, redeem.value, algorithm.value, root.value, count.value, timeout.value))
  }

  lemma TakePutTerms(h: Htlc)
    requires h.Valid()
    ensures TakeTerms(h.refund, PutHtlc(h)[20..]) == Ok(h)
  {
    var s5 := PutU32(h.timeout) + [];
    var s4 := [h.count] + s5;
    var s3 := h.root + s4;
    var s2 := [h.algorithm] + s3;
    assert PutHtlc(h)[20..] == h.redeem + s2;
    TakePutAddress(h.redeem, s2);
    TakePutU8(h.algorithm, s3);
    TakePutBytes(h.root, s4);
    TakePutU8(h.count, s5);
    TakePutU32(h.timeout, []);
  }

  lemma PutTakenTerms(refund: Address, s: Bytes)
    requires TakeTerms(refund, s).Ok?
    ensures var h := TakeTerms(refund, s).value; h.Valid() && h.refund == refund && PutHtlc(h) == refund + s
  {
    PutTakenAddress(s);
    var redeem := TakeAddress(s).value;
    PutTakenU8(redeem.rest);
    var algorithm := TakeU8(redeem.rest).value;
    PutTakenBytes(HashSize(algorithm.value), algorithm.rest);
    var root := TakeBytes(HashSize(algorithm.value), algorithm.rest).value;
    PutTakenU8(root.rest);
    PutTakenU32(TakeU8(root.rest).value.rest);
  }

  /** Soon means before, or within two months after, the height from which on the transaction is valid. */
  predicate TimingOutSoon(timeout: u32, validityStartHeight: u32) {
    timeout < validityStartHeight || timeout - validityStartHeight < HTLC_TIMEOUT_SOON_THRESHOLD
  }

  function DisplayOf(h: Htlc, sender: Address, validityStartHeight: u32): HtlcTx
    requires h.Valid()
  {
    HtlcTx(h.refund == sender, TimingOutSoon(h.timeout, validityStartHeight), h.algorithm == HASH_ALGORITHM_SHA256,
           TextOf(h.redeem), TextOf(h.refund), HexText(h.root), AlgorithmName(h.algorithm).value,
           Numeral(h.count), Numeral(h.timeout))
  }

  /** The outcome of parsing, with the errors in the order in which they are detected. */
  function Outcome(version: u8, data: Bytes, sender: Address, senderType: u8, validityStartHeight: u32):
    Result<HtlcTx>
  {
    if version != TRANSACTION_VERSION_LEGACY then Err(NotSupported)
    else
      var refund :- TakeAddress(data).OrElse(Read);
      if refund.value == sender && senderType != ACCOUNT_TYPE_BASIC then Err(IncorrectData)
      else
        var h :- TakeTerms(refund.value, refund.rest);
        PutTakenTerms(refund.value, refund.rest);
        Ok(DisplayOf(h, sender, validityStartHeight))
  }

  /** Serialised contracts are accepted and displayed, but for a refund to a contract. */
  lemma OutcomeOf(h: Htlc, sender: Address, senderType: u8, validityStartHeight: u32)
    requires h.Valid() && (h.refund == sender ==> senderType == ACCOUNT_TYPE_BASIC)
    ensures Outcome(TRANSACTION_VERSION_LEGACY, PutHtlc(h), sender, senderType, validityStartHeight)
         == Ok(DisplayOf(h, sender, validityStartHeight))
  {
    TakePutAddress(h.refund, PutHtlc(h)[20..]);
    assert PutHtlc(h) == h.refund + PutHtlc(h)[20..];
    TakePutTerms(h);
  }

  /** Nothing but serialised contracts is accepted. */
  lemma AcceptedData(version: u8, data: Bytes, sender: Address, senderType: u8, validityStartHeight: u32)
    returns (h: Htlc)
    requires Outcome(version, data, sender, senderType, validityStartHeight).Ok?
    ensures version == TRANSACTION_VERSION_LEGACY && h.Valid() && data == PutHtlc(h)
    ensures h.refund == sender ==> senderType == ACCOUNT_TYPE_BASIC
  {
    var refund := TakeAddress(data).value;
    PutTakenAddress(data);
    PutTakenTerms(refund.value, refund.rest);
    h := TakeTerms(refund.value, refund.rest).value;
  }

  // ---------------------------------------------------------------------------------------------------------------
  // The parser

  method ReadTerms(cursor: Cursor, refund: Address) returns (r: Result<Htlc>)
    requires cursor.Valid()
    modifies cursor
    ensures r == TakeTerms(refund, old(cursor.Rest()))
  {
    var ok, redeem := cursor.ReadAddress();
    if !ok {
      return Err(Read);
    }
    var algorithm: u8;
    ok, algorithm := cursor.ReadU8();
    if !ok {
      return Err(Read);
    }
    if AlgorithmName(algorithm).None? {
      return Err(IncorrectData);
    }
    var hashBytes;
    ok, hashBytes := cursor.ReadSubBuffer(HashSize(algorithm));
    if !ok {
      return Err(Read);
    }
    var root := Slice(cursor.memory, hashBytes, HashSize(algorithm));
    var count: u8, timeout: u32;
    ok, count := cursor.ReadU8();
    if !ok {
      return Err(Read);
    }
    ok, timeout := cursor.ReadU32();
    if !ok {
      return Err(Read);
    }
    if cursor.length != 0 {
      return Err(InvalidLength);
    }
    return Ok(Htlc(refund, redeem, algorithm, root, count, timeout));
  }

  method ParseHtlcCreationData(version: u8, cursor: Cursor, sender: Address, senderType: u8, validityStartHeight: u32,
                               out: ParsedTx)
    returns (r: Result<()>)
    requires cursor.Valid()
    modifies cursor, out`htlc
    ensures var outcome := Outcome(version, old(cursor.Rest()), sender, senderType, validityStartHeight);
            if outcome.Ok? then r == Ok(()) && out.htlc == outcome.value else r == Err(outcome.error)
  {
    if version != TRANSACTION_VERSION_LEGACY {
      return Err(NotSupported);
    }
    var ok, refund := cursor.ReadAddress();
    if !ok {
      return Err(Read);
    }
    var refundText := AddressField(refund);
    out.htlc := out.htlc.(refundAddress := refundText, isRefundAddressSenderAddress := refund == sender);
    if out.htlc.isRefundAddressSenderAddress && senderType != ACCOUNT_TYPE_BASIC {
      return Err(IncorrectData);
    }
    ghost var s := cursor.Rest();
    var h :- ReadTerms(cursor, refund);
    PutTakenTerms(refund, s);
    var redeemText := AddressField(h.redeem);
    var rootText := HexField(h.root, HASH_ROOT_LENGTH);
    out.htlc := out.htlc.(
      redeemAddress := redeemText, hashAlgorithm := AlgorithmName(h.algorithm).value,
      isUsingSha256 := h.algorithm == HASH_ALGORITHM_SHA256, hashRoot := rootText, hashCount := Numeral(h.count),
      timeout := Numeral(h.timeout), isTimingOutSoon := TimingOutSoon(h.timeout, validityStartHeight));
    return Ok(());
  }
}
