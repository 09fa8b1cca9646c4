/**
 Transactions byte by byte: where every field stands, which bytes are accepted, and what the user is shown for them. It
 is said in numbers and texts, without the names that the parsers have for them.
 */
module Layout {
  import opened AddressText
  import opened Amount
  import opened Arithmetic
  import Confirmation
  import opened DataField
  import opened Hex
  import Htlc = HtlcCreation
  import opened Machine
  import opened ParsedTransaction
  import SP = SignatureProof
  import Staking
  import opened Transaction
  import opened TransactionScreen
  import V = VestingScreen
  import Vesting = VestingCreation
  import VS = VestingSchedule
  import opened Wire

  // ---------------------------------------------------------------------------------------------------------------
  // Where the fields stand

  /** The recipient data come first, behind their length; sender data exist in version 1 only. */
  predicate FieldsAt(version: u8, s: Bytes, f: Fields) {
    var n := |f.parties.data|;
    && |s| == 66 + n + (if version == 1 then 1 + |f.trailer.senderData| else 0)
    && U16At(s, 0) == n && s[2..2 + n] == f.parties.data
    && s[2 + n..22 + n] == f.parties.sender && s[22 + n] == f.parties.senderType
    && s[23 + n..43 + n] == f.parties.recipient && s[43 + n] == f.parties.recipientType
    && U64At(s, 44 + n) == f.amounts.value && U64At(s, 52 + n) == f.amounts.fee
    && U32At(s, 60 + n) == f.trailer.validityStartHeight
    && s[64 + n] == f.trailer.networkId && s[65 + n] == f.trailer.flags
    && (version == 1 ==> s[66 + n] == |f.trailer.senderData| && s[67 + n..] == f.trailer.senderData)
  }

  /** A number tells its bytes. */
  lemma SameU16(s: Bytes, t: Bytes)
    requires |s| >= 2 && |t| >= 2 && U16At(s, 0) == U16At(t, 0)
    ensures s[..2] == t[..2]
  {
    hide U16At;
    NumbersAt(s);
    NumbersAt(t);
    BigEndianRoundTrip(s[..2]);
    BigEndianRoundTrip(t[..2]);
  }

  lemma SameU32(s: Bytes, t: Bytes, i: nat)
    requires i + 4 <= |s| && i + 4 <= |t| && U32At(s, i) == U32At(t, i)
    ensures s[i..i + 4] == t[i..i + 4]
  {
    hide U32At;
    NumbersInside(s, i);
    NumbersInside(t, i);
    NumbersAt(s[i..]);
    NumbersAt(t[i..]);
    BigEndianRoundTrip(s[i..][..4]);
    BigEndianRoundTrip(t[i..][..4]);
  }

  lemma SameU64(s: Bytes, t: Bytes, i: nat)
    requires i + 8 <= |s| && i + 8 <= |t| && U64At(s, i) == U64At(t, i)
    ensures s[i..i + 8] == t[i..i + 8]
  {
    hide U64At;
    NumbersInside(s, i);
    NumbersInside(t, i);
    NumbersAt(s[i..]);
    NumbersAt(t[i..]);
    BigEndianRoundTrip(s[i..][..8]);
    BigEndianRoundTrip(t[i..][..8]);
    assert s[i..][..8] == s[i..i + 8] && t[i..][..8] == t[i..i + 8];
  }

  lemma SameUpTo(s: Bytes, t: Bytes, a: nat, b: nat)
    requires a <= b <= |s| && b <= |t| && s[..a] == t[..a] && s[a..b] == t[a..b]
    ensures s[..b] == t[..b]
  {
    assert s[..b] == s[..a] + s[a..b] && t[..b] == t[..a] + t[a..b];
  }

  lemma SameByte(s: Bytes, t: Bytes, a: nat)
    requires a < |s| && a < |t| && s[..a] == t[..a] && s[a] == t[a]
    ensures s[..a + 1] == t[..a + 1]
  {
    assert s[..a + 1] == s[..a] + [s[a]] && t[..a + 1] == t[..a] + [t[a]];
  }

  /** There is one byte string with given fields. */
  lemma FieldsDetermine(version: u8, s: Bytes, t: Bytes, f: Fields)
    requires FieldsAt(version, s, f) && FieldsAt(version, t, f)
    ensures s == t
  {
    hide U16At, U32At, U64At;
    var n := |f.parties.data|;
    SameU16(s, t);
    SameUpTo(s, t, 2, 2 + n);
    SameUpTo(s, t, 2 + n, 22 + n);
    SameByte(s, t, 22 + n);
    SameUpTo(s, t, 23 + n, 43 + n);
    SameByte(s, t, 43 + n);
    SameU64(s, t, 44 + n);
    SameUpTo(s, t, 44 + n, 52 + n);
    SameU64(s, t, 52 + n);
    SameUpTo(s, t, 52 + n, 60 + n);
    SameU32(s, t, 60 + n);
    SameUpTo(s, t, 60 + n, 64 + n);
    SameByte(s, t, 64 + n);
    SameByte(s, t, 65 + n);
    if version == 1 {
      SameByte(s, t, 66 + n);
      SameUpTo(s, t, 67 + n, |s|);
    }
    assert s[..|s|] == s && t[..|t|] == t;
  }

  lemma PartiesAt(p: Parties, rest: Bytes)
    requires |p.data| <= 0xFFFF
    ensures var s, n := PutParties(p) + rest, |p.data|;
            && |s| == 44 + n + |rest| && U16At(s, 0) == n && s[2..2 + n] == p.data
            && s[2 + n..22 + n] == p.sender && s[22 + n] == p.senderType
            && s[23 + n..43 + n] == p.recipient && s[43 + n] == p.recipientType && s[44 + n..] == rest
  {
    hide ToBytes, U16At;
    var s, n := PutParties(p) + rest, |p.data|;
    assert s[..2] == PutU16(n);
    NumbersAt(s);
    Wire.SmallPowers();
    ToBytesRoundTrip(2, n);
  }

  lemma AmountsAt(a: Amounts, rest: Bytes)
    ensures var s := PutAmounts(a) + rest;
            |s| == 16 + |rest| && U64At(s, 0) == a.value && U64At(s, 8) == a.fee && s[16..] == rest
  {
    hide ToBytes, U64At;
    var s := PutAmounts(a) + rest;
    assert s[..8] == PutU64(a.value) && s[8..][..8] == PutU64(a.fee);
    NumbersAt(s);
    NumbersAt(s[8..]);
    NumbersInside(s, 8);
    Wire.SmallPowers();
    ToBytesRoundTrip(8, a.value);
    ToBytesRoundTrip(8, a.fee);
  }

  lemma TrailerAt(version: u8, t: Trailer)
    requires |t.senderData| < 0x80
    ensures var s := PutTrailer(version, t);
            && |s| == 6 + (if version == 1 then 1 + |t.senderData| else 0)
            && U32At(s, 0) == t.validityStartHeight && s[4] == t.networkId && s[5] == t.flags
            && (version == 1 ==> s[6] == |t.senderData| && s[7..] == t.senderData)
  {
    hide ToBytes, U32At;
    var height := PutU32(t.validityStartHeight);
    var last := if version == 1 then PutVec(t.senderData) else [];
    var s := height + ([t.networkId] + ([t.flags] + last));
    TrailerParts(height, t.networkId, t.flags, last);
    if version == 1 {
      Behind(s, 6, 0);
      Behind(s, 6, 1);
    }
    NumberOfPut(t.validityStartHeight);
    FirstU32(s, height);
  }

  lemma FirstU32(s: Bytes, t: Bytes)
    requires |s| >= 4 && |t| == 4 && s[..4] == t
    ensures U32At(s, 0) == U32At(t, 0)
  {
    assert forall i :: 0 <= i < 4 ==> s[i] == t[i];
  }

  lemma TrailerParts(height: Bytes, networkId: u8, flags: u8, last: Bytes)
    requires |height| == 4
    ensures var s := height + ([networkId] + ([flags] + last));
            |s| == 6 + |last| && s[..4] == height && s[4] == networkId && s[5] == flags && s[6..] == last
  {
  }

  /** Parts of a byte string behind `n` others. */
  lemma Behind(s: Bytes, n: nat, i: nat)
    requires n + i <= |s|
    ensures s[n..][i..] == s[n + i..]
    ensures n + i < |s| ==> s[n..][i] == s[n + i]
    ensures n + i + 4 <= |s| ==> U32At(s[n..], i) == U32At(s, n + i)
    ensures n + i + 8 <= |s| ==> U64At(s[n..], i) == U64At(s, n + i)
  {
  }

  /** The fields behind the parties. */
  predicate BehindParties(version: u8, s: Bytes, f: Fields) {
    && |s| == 22 + (if version == 1 then 1 + |f.trailer.senderData| else 0)
    && U64At(s, 0) == f.amounts.value && U64At(s, 8) == f.amounts.fee
    && U32At(s, 16) == f.trailer.validityStartHeight && s[20] == f.trailer.networkId && s[21] == f.trailer.flags
    && (version == 1 ==> s[22] == |f.trailer.senderData| && s[23..] == f.trailer.senderData)
  }

  lemma SerializedBehind(version: u8, f: Fields)
    requires WellFormed(version, f)
    ensures BehindParties(version, PutAmounts(f.amounts) + PutTrailer(version, f.trailer), f)
  {
    hide PutAmounts, PutTrailer, U32At, U64At, NetworkName;
    var trailer := PutTrailer(version, f.trailer);
    var s := PutAmounts(f.amounts) + trailer;
    AmountsAt(f.amounts, trailer);
    TrailerAt(version, f.trailer);
    Behind(s, 16, 0);
    Behind(s, 16, 4);
    Behind(s, 16, 5);
    if version == 1 {
      Behind(s, 16, 6);
      Behind(s, 16, 7);
    }
  }

  lemma AllFields(version: u8, s: Bytes, f: Fields)
    requires var n := |f.parties.data|;
             && |s| >= 44 + n && U16At(s, 0) == n && s[2..2 + n] == f.parties.data
             && s[2 + n..22 + n] == f.parties.sender && s[22 + n] == f.parties.senderType
             && s[23 + n..43 + n] == f.parties.recipient && s[43 + n] == f.parties.recipientType
             && BehindParties(version, s[44 + n..], f)
    ensures FieldsAt(version, s, f)
  {
    hide U16At, U32At, U64At;
    var n := 44 + |f.parties.data|;
    Behind(s, n, 0);
    Behind(s, n, 8);
    Behind(s, n, 16);
    Behind(s, n, 20);
    Behind(s, n, 21);
    if version == 1 {
      Behind(s, n, 22);
      Behind(s, n, 23);
    }
  }

  lemma SerializedFields(version: u8, f: Fields)
    requires WellFormed(version, f)
    ensures FieldsAt(version, Serialize(version, f), f)
  {
    hide PutParties, PutAmounts, PutTrailer, NetworkName, BehindParties, FieldsAt, U16At;
    var rest := PutAmounts(f.amounts) + PutTrailer(version, f.trailer);
    PartiesAt(f.parties, rest);
    SerializedBehind(version, f);
    AllFields(version, PutParties(f.parties) + rest, f);
  }

  /** The serialisation of fields is what has each of them in its place. */
  lemma SerializedAt(version: u8, s: Bytes, f: Fields)
    requires WellFormed(version, f)
    ensures s == Serialize(version, f) <==> FieldsAt(version, s, f)
  {
    hide FieldsAt, Serialize, WellFormed;
    SerializedFields(version, f);
    if FieldsAt(version, s, f) {
      FieldsDetermine(version, s, Serialize(version, f), f);
    }
  }

  // ---------------------------------------------------------------------------------------------------------------
  // What data are accepted

  /** Behind `k` bytes stands the proof of a plain key. */
  predicate EndsWithProof(data: Bytes, k: nat) {
    |data| == k + 98 && data[k] == 0 && data[k + 33] == 0
  }

  predicate IsStakingData(data: Bytes) {
    && |data| >= 2
    && if data[0] == 5 then EndsWithProof(data, if data[1] == 0 then 2 else 22)
       else if data[0] == 6 then |data| == 21
       else if data[0] == 7 then EndsWithProof(data, if data[1] == 0 then 3 else 23)
       else (data[0] == 8 || data[0] == 9) && EndsWithProof(data, 9) && U64At(data, 1) <= 9_007_199_254_740_991
  }

  predicate IsHtlcData(data: Bytes) {
    if |data| == 110 then data[40] == 4 else |data| == 78 && (data[40] == 1 || data[40] == 3)
  }

  /** All steps end at a block that has a number of 32 bits, unless everything is released at once. */
  predicate IsVestingData(data: Bytes, value: u64) {
    && (|data| == 24 || |data| == 36 || |data| == 44)
    && var p := Vesting.ParamsAt(data[20..], value);
       || p.stepBlocks == 0 || p.stepAmount == 0
       || var steps := (p.totalLocked + p.stepAmount - 1) / p.stepAmount;
          steps <= 0xFFFF_FFFF && p.start + steps * p.stepBlocks <= 0xFFFF_FFFF && p.stepAmount <= 9_007_199_254_740_991
  }

  /** Where a delegation that begins at `data[1]` ends. */
  function DelegationEnd(data: Bytes): nat
    requires |data| >= 2
  {
    if data[1] == 0 then 2 else 22
  }

  function DelegationAt(data: Bytes): Staking.Delegation
    requires |data| >= 2 && |data| >= DelegationEnd(data)
  {
    Staking.Delegation(data[1], if data[1] == 0 then None else Some(data[2..22]))
  }

  lemma DelegationTaken(data: Bytes)
    requires |data| >= 1
    ensures var t := Staking.TakeDelegation(data[1..]);
            && (t.Some? <==> |data| >= 2 && |data| >= DelegationEnd(data))
            && (t.Some? ==> t == Some(Taken(DelegationAt(data), data[DelegationEnd(data)..])))
  {
    if |data| >= 2 {
      assert data[1..][1..] == data[2..];
      if |data| >= 22 {
        assert data[2..][..20] == data[2..22] && data[2..][20..] == data[22..];
      }
    }
  }

  lemma AmountTaken(data: Bytes)
    requires |data| >= 1
    ensures var t := TakeU64(data[1..]);
            (t.Some? <==> |data| >= 9) && (t.Some? ==> t == Some(Taken(U64At(data, 1), data[9..])))
  {
    if |data| >= 9 {
      NumbersAt(data[1..]);
      NumbersInside(data, 1);
      assert data[1..][8..] == data[9..];
    }
  }

  /** The body of a request to the staking contract, and where it ends. */
  predicate BodyAt(data: Bytes, body: Staking.Body, end: nat) {
    && |data| >= end >= 2
    && if data[0] == 5 then
         end == DelegationEnd(data) && body == Staking.Create(DelegationAt(data))
       else if data[0] == 6 then
         end == 21 && body == Staking.Add(data[1..21])
       else if data[0] == 7 then
         end == DelegationEnd(data) + 1 && body == Staking.Update(DelegationAt(data), data[end - 1])
       else
         && end == 9 && U64At(data, 1) <= 9_007_199_254_740_991
         && ((data[0] == 8 && body == Staking.SetActive(U64At(data, 1)))
             || (data[0] == 9 && body == Staking.Retire(U64At(data, 1))))
  }

  lemma BodyTaken(data: Bytes, body: Staking.Body, end: nat)
    ensures end <= |data| && Staking.TakeBody(data) == Ok(Taken(body, data[end..])) <==> BodyAt(data, body, end)
  {
    if |data| >= 1 {
      hide BodyAt, Staking.TakeFields;
      if data[0] == 5 || data[0] == 7 {
        DelegationBody(data, body, end);
      } else if data[0] == 6 {
        AddBody(data, body, end);
      } else {
        AmountBody(data, body, end);
      }
    }
  }

  lemma DelegationBody(data: Bytes, body: Staking.Body, end: nat)
    requires |data| >= 1 && (data[0] == 5 || data[0] == 7)
    ensures end <= |data| && Staking.TakeFields(data[0], data[1..]) == Ok(Taken(body, data[end..]))
       <==> BodyAt(data, body, end)
  {
    hide Staking.TakeDelegation;
    DelegationTaken(data);
    if end <= |data| {
      SuffixesDiffer(data, end);
    }
    if |data| >= 2 && |data| > DelegationEnd(data) {
      assert data[DelegationEnd(data)..][1..] == data[DelegationEnd(data) + 1..];
    }
  }

  lemma AddBody(data: Bytes, body: Staking.Body, end: nat)
    requires |data| >= 1 && data[0] == 6
    ensures end <= |data| && Staking.TakeFields(data[0], data[1..]) == Ok(Taken(body, data[end..]))
       <==> BodyAt(data, body, end)
  {
    if end <= |data| {
      SuffixesDiffer(data, end);
    }
    if |data| >= 21 {
      assert data[1..][..20] == data[1..21] && data[1..][20..] == data[21..];
    }
  }

  lemma AmountBody(data: Bytes, body: Staking.Body, end: nat)
    requires |data| >= 1 && data[0] != 5 && data[0] != 6 && data[0] != 7
    ensures end <= |data| && Staking.TakeFields(data[0], data[1..]) == Ok(Taken(body, data[end..]))
       <==> BodyAt(data, body, end)
  {
    hide U64At, TakeU64;
    AmountTaken(data);
    if end <= |data| {
      SuffixesDiffer(data, end);
    }
  }

  lemma SuffixesDiffer(data: Bytes, end: nat)
    requires end <= |data|
    ensures forall k :: 0 <= k <= |data| && data[k..] == data[end..] ==> k == end
  {
    forall k | 0 <= k <= |data| && data[k..] == data[end..]
      ensures k == end
    {
      assert |data[k..]| == |data| - k;
    }
  }

  /** Where the body ends, and the proof, if any, begins. */
  function BodyEnd(data: Bytes): nat
    requires |data| >= 2
  {
    if data[0] == 5 then DelegationEnd(data)
    else if data[0] == 6 then 21
    else if data[0] == 7 then DelegationEnd(data) + 1
    else 9
  }

  /** The body that staking data hold. */
  function BodyOf(data: Bytes): Staking.Body
    requires IsStakingData(data)
  {
    if data[0] == 5 then Staking.Create(DelegationAt(data))
    else if data[0] == 6 then Staking.Add(data[1..21])
    else if data[0] == 7 then Staking.Update(DelegationAt(data), data[BodyEnd(data) - 1])
    else if data[0] == 8 then Staking.SetActive(U64At(data, 1))
    else Staking.Retire(U64At(data, 1))
  }

  /** The proof at the end. */
  function ProofOf(data: Bytes): Option<SP.Proof>
    requires IsStakingData(data)
  {
    var k := BodyEnd(data);
    if data[0] == 6 then None else Some(SP.Proof(data[k + 1..k + 33], data[k + 34..k + 98]))
  }

  lemma BodyIsAt(data: Bytes)
    ensures IsStakingData(data) ==> BodyAt(data, BodyOf(data), BodyEnd(data))
    ensures forall body, end :: BodyAt(data, body, end) ==> end == BodyEnd(data)
  {
  }

  lemma SliceBehind(data: Bytes, n: nat, a: nat, b: nat)
    requires a <= b && n + b <= |data|
    ensures data[n..][a..b] == data[n + a..n + b]
  {
  }

  lemma LastProofTaken(data: Bytes, body: Staking.Body, end: nat)
    requires BodyAt(data, body, end)
    ensures Staking.TakeLastProof(body, data[end..]).Ok? <==> IsStakingData(data)
    ensures IsStakingData(data) ==> Staking.TakeLastProof(body, data[end..]) == Ok(ProofOf(data))
  {
    hide U64At;
    if data[0] != 6 && |data| == end + 98 {
      SliceBehind(data, end, 1, 33);
      SliceBehind(data, end, 34, 98);
      assert data[end..][98..] == [];
    }
  }

  /** Exactly such data are read, and what is read is this. */
  lemma ActionTaken(data: Bytes)
    ensures Staking.TakeAction(data).Ok? <==> IsStakingData(data)
    ensures IsStakingData(data) ==> Staking.TakeAction(data) == Ok(Staking.Action(BodyOf(data), ProofOf(data)))
  {
    hide BodyAt, Staking.TakeBody, Staking.TakeLastProof, IsStakingData, U64At;
    BodyIsAt(data);
    if IsStakingData(data) {
      BodyTaken(data, BodyOf(data), BodyEnd(data));
      LastProofTaken(data, BodyOf(data), BodyEnd(data));
    } else if Staking.TakeBody(data).Ok? {
      var t := Staking.TakeBody(data).value;
      Staking.PutTakenBody(data);
      var end := |data| - |t.rest|;
      assert data[end..] == t.rest;
      BodyTaken(data, t.value, end);
      LastProofTaken(data, t.value, end);
    }
  }

  lemma HtlcPartsTaken(data: Bytes)
    requires |data| >= 41
    ensures TakeAddress(data[20..]) == Some(Taken(data[20..40], data[40..]))
    ensures TakeU8(data[40..]) == Some(Taken(data[40], data[41..]))
  {
    assert data[40..][1..] == data[41..];
    assert data[20..][..20] == data[20..40];
    assert data[20..][20..] == data[40..];
  }

  lemma HtlcTaken(version: u8, data: Bytes, sender: Address, senderType: u8, validityStartHeight: u32)
    ensures Htlc.Outcome(version, data, sender, senderType, validityStartHeight).Ok?
       <==> version == 0 && IsHtlcData(data) && (data[..20] == sender ==> senderType == 0)
  {
    hide U32At, Htlc.DisplayOf, Wire.BigEndian;
    if |data| >= 41 {
      HtlcPartsTaken(data);
    }
  }

  lemma RoundedUp(a: nat, b: nat)
    requires b > 0
    ensures VS.CeilDiv(a, b) == (a + b - 1) / b
  {
    QuotientBounds(a, b);
    ModBounds(a, b);
    if a % b == 0 {
      DivModUnique(a + b - 1, b, a / b, b - 1);
    } else {
      assert (a / b + 1) * b == a / b * b + b;
      DivModUnique(a + b - 1, b, a / b + 1, a % b - 1);
    }
  }

  lemma VestingTaken(version: u8, data: Bytes, sender: Address, senderType: u8, value: u64)
    requires value <= 9_007_199_254_740_991
    ensures Vesting.Outcome(version, data, sender, senderType, value).Ok?
       <==> version == 0 && IsVestingData(data, value) && (data[..20] == sender ==> senderType == 0)
  {
    hide U32At, U64At, Vesting.AmountsPrintable, Vesting.TakeTerms, VS.ScheduleOf, Vesting.ParamsOf, Vesting.DisplayOf;
    if |data| >= 20 {
      var s := data[20..];
      Vesting.TermsAt(s, value);
      if Vesting.TakeTerms(s).Ok? {
        var p := Vesting.ParamsAt(s, value);
        if !p.Immediate() {
          RoundedUp(p.totalLocked, p.stepAmount);
        }
        if p.Translatable() {
          Vesting.OnlyStepAmountMatters(p, value, VS.ScheduleOf(p, value).value);
        }
      }
    }
  }

  // ---------------------------------------------------------------------------------------------------------------
  // What transactions are accepted

  function NetworkText(version: u8, networkId: u8): string {
    if version == 0 then
      if networkId == 42 then "Main" else if networkId == 1 then "Test" else if networkId == 2 then "Development"
      else if networkId == 3 then "Bounty" else ""
    else
      if networkId == 24 then "Main" else if networkId == 5 then "Test" else if networkId == 6 then "Development"
      else if networkId == 7 then "Bounty" else ""
  }

  predicate IsContract(address: Address) {
    address[19] == 1 && forall i :: 0 <= i < 19 ==> address[i] == 0
  }

  /** The fields fit together: which flags and data there have to be is a matter of the two account types. */
  predicate FitTogether(version: u8, f: Fields) {
    var p, flags := f.parties, f.trailer.flags;
    if p.senderType == 3 then
      version == 1 && IsContract(p.sender) && flags == 0 && p.data == [] && f.trailer.senderData == [1]
    else
      && f.trailer.senderData == []
      && if p.recipientType == 0 then
           flags == 0 && |p.data| <= 64
         else if p.recipientType == 1 then
           && version == 0 && flags == 1 && IsVestingData(p.data, f.amounts.value)
           && (p.data[..20] == p.sender ==> p.senderType == 0)
         else if p.recipientType == 2 then
           version == 0 && flags == 1 && IsHtlcData(p.data) && (p.data[..20] == p.sender ==> p.senderType == 0)
         else
           && p.recipientType == 3 && version == 1 && IsContract(p.recipient) && IsStakingData(p.data)
           && flags == (if p.data[0] >= 7 then 2 else 0)
  }

  predicate Accepts(version: u8, f: Fields) {
    && (version == 0 || version == 1) && NetworkText(version, f.trailer.networkId) != ""
    && f.amounts.value <= 9_007_199_254_740_991 && f.amounts.fee <= 9_007_199_254_740_991
    && |f.parties.data| <= 0xFFFF && |f.trailer.senderData| < 0x80 && FitTogether(version, f)
  }

  lemma NetworkNames(version: u8, networkId: u8)
    requires version == 0 || version == 1
    ensures NetworkName(version, networkId)
         == if NetworkText(version, networkId) == "" then None else Some(NetworkText(version, networkId))
  {
  }

  lemma ContractAt(address: Address)
    ensures address == Staking.StakingContract() <==> IsContract(address)
  {
    var contract := Staking.StakingContract();
    assert contract[19] == 1 && forall i :: 0 <= i < 19 ==> contract[i] == 0;
    if IsContract(address) {
      assert forall i :: 0 <= i < 20 ==> address[i] == contract[i];
    }
  }

  lemma OutgoingTaken(version: u8, f: Fields, init: Parsed)
    requires version == 0 || version == 1
    ensures OutgoingOutcome(version, f, init).Ok?
       <==> version == 1 && IsContract(f.parties.sender) && f.trailer.flags == 0 && f.parties.data == []
            && f.trailer.senderData == [1]
  {
    ContractAt(f.parties.sender);
    var d := f.trailer.senderData;
    if |d| == 1 {
      assert d[1..] == [] && d == [d[0]];
    }
  }

  lemma IncomingTaken(version: u8, f: Fields, addressOf: PublicKey -> Address, init: Parsed)
    requires version == 0 || version == 1
    ensures IncomingOutcome(version, f, addressOf, init).Ok?
       <==> && version == 1 && IsContract(f.parties.recipient) && IsStakingData(f.parties.data)
            && f.trailer.flags == (if f.parties.data[0] >= 7 then 2 else 0) && f.trailer.senderData == []
  {
    hide Staking.TakeAction;
    ContractAt(f.parties.recipient);
    ActionTaken(f.parties.data);
  }

  /** Exactly the fields that fit together are accepted. */
  lemma Interpreted(version: u8, f: Fields, addressOf: PublicKey -> Address, init: Parsed)
    requires WellFormed(version, f)
    ensures Interpret(version, f, addressOf, init).Ok? <==> FitTogether(version, f)
  {
    hide Vesting.Outcome, Htlc.Outcome, IncomingOutcome, OutgoingOutcome, IsVestingData, IsHtlcData, IsStakingData,
         IsContract, Display;
    OutgoingTaken(version, f, init);
    IncomingTaken(version, f, addressOf, init);
    VestingTaken(version, f.parties.data, f.parties.sender, f.parties.senderType, f.amounts.value);
    HtlcTaken(version, f.parties.data, f.parties.sender, f.parties.senderType, f.trailer.validityStartHeight);
  }

  /** The errors for fields that do not fit together, apart from those of data that cannot be parsed. */
  lemma Refusals(version: u8, f: Fields, addressOf: PublicKey -> Address, init: Parsed)
    requires version == 0 || version == 1
    ensures var r, p, flags, senderData := Interpret(version, f, addressOf, init), f.parties, f.trailer.flags,
                                           f.trailer.senderData;
            if p.senderType == 3 then
              if flags != 0 || p.data != [] then r == Err(NotSupported)
              else if !IsContract(p.sender) || version == 0 then r == Err(IncorrectData)
              else if senderData == [] then r == Err(Read)
              else if senderData[0] > 1 then r == Err(IncorrectData)
              else if |senderData| > 1 then r == Err(InvalidLength)
              else senderData[0] == 0 ==> r == Err(NotSupported)
            else if p.recipientType > 3 then r == Err(IncorrectData)
            else if senderData != [] then r == Err(NotSupported)
            else if p.recipientType == 0 then
              if flags != 0 then r == Err(NotSupported) else |p.data| > 64 ==> r == Err(InvalidLength)
            else if p.recipientType < 3 then flags != 1 || version == 1 ==> r == Err(NotSupported)
            else if flags != 0 && flags != 2 then r == Err(NotSupported)
            else if !IsContract(p.recipient) || version == 0 then r == Err(IncorrectData)
            else IsStakingData(p.data) && flags != (if p.data[0] >= 7 then 2 else 0) ==> r == Err(IncorrectData)
  {
    hide IsContract, IsStakingData, Staking.TakeAction;
    ContractAt(f.parties.sender);
    ContractAt(f.parties.recipient);
    ActionTaken(f.parties.data);
    if |f.trailer.senderData| == 1 {
      assert f.trailer.senderData[1..] == [];
    }
    if IsStakingData(f.parties.data) {
      SignalingTypes(f.parties.data);
    }
  }

  lemma SignalingTypes(data: Bytes)
    requires IsStakingData(data)
    ensures |data| > 0 && (Staking.IsSignaling(BodyOf(data).TypeByte()) <==> data[0] >= 7)
  {
    hide U64At, EndsWithProof;
  }

  /**
   A byte string is accepted if and only if it has fields in their places that fit together: for given fields one way,
   for given bytes the other.
   */
  lemma AcceptableAccepted(version: u8, s: Bytes, f: Fields, addressOf: PublicKey -> Address, init: Parsed)
    requires FieldsAt(version, s, f) && Accepts(version, f)
    ensures Outcome(version, s, addressOf, init).Ok?
  {
    hide FieldsAt, FitTogether, NetworkText, Interpret, Serialize, TakeFields;
    NetworkNames(version, f.trailer.networkId);
    if version == 0 {
      LegacyWithoutSenderData(version, f);
    }
    SerializedAt(version, s, f);
    FieldsRoundTrip(version, f);
    Interpreted(version, f, addressOf, CommonDisplay(version, f, init));
  }

  lemma LegacyWithoutSenderData(version: u8, f: Fields)
    requires FitTogether(version, f) && version == 0
    ensures f.trailer.senderData == []
  {
  }

  lemma AcceptedAcceptable(version: u8, s: Bytes, addressOf: PublicKey -> Address, init: Parsed) returns (f: Fields)
    requires Outcome(version, s, addressOf, init).Ok?
    ensures FieldsAt(version, s, f) && Accepts(version, f)
    ensures WellFormed(version, f) && TakeFields(version, s) == Ok(f)
    ensures Outcome(version, s, addressOf, init) == Interpret(version, f, addressOf, CommonDisplay(version, f, init))
  {
    hide FieldsAt, FitTogether, NetworkText, Interpret, Serialize, TakeFields;
    FieldsExact(version, s);
    f := TakeFields(version, s).value;
    NetworkNames(version, f.trailer.networkId);
    SerializedAt(version, s, f);
    Interpreted(version, f, addressOf, CommonDisplay(version, f, init));
  }

  /** What is accepted, said of the bytes alone. */
  lemma AcceptedExactly(version: u8, s: Bytes, addressOf: PublicKey -> Address, init: Parsed)
    ensures Outcome(version, s, addressOf, init).Ok? <==> exists f :: FieldsAt(version, s, f) && Accepts(version, f)
  {
    hide FieldsAt, Accepts, Outcome;
    if Outcome(version, s, addressOf, init).Ok? {
      var f := AcceptedAcceptable(version, s, addressOf, init);
    } else if exists f :: FieldsAt(version, s, f) && Accepts(version, f) {
      var f :| FieldsAt(version, s, f) && Accepts(version, f);
      AcceptableAccepted(version, s, f, addressOf, init);
    }
  }

  // ---------------------------------------------------------------------------------------------------------------
  // What is shown

  function TitleFor(p: Parties): string {
    if p.senderType == 3 then "Unstake"
    else if p.recipientType == 0 then
      if p.data == [0x00, 0x82, 0x80, 0x92, 0x87] then "Cashlink" else "Transaction"
    else if p.recipientType == 1 then "Vesting"
    else if p.recipientType == 2 then "HTLC / Swap"
    else if p.data == [] then ""
    else RequestTitle(p.data[0])
  }

  /** The title and the entries that every transaction may have. */
  predicate HeadFor(screen: Confirmation.Screen, version: u8, f: Fields) {
    var a := f.amounts;
    && screen.title == TitleFor(f.parties)
    && screen.amount == (if a.value == 0 then None else Some(NimText(a.value)))
    && screen.fee == (if a.fee == 0 then None else Some(NimText(a.fee)))
    && screen.network == NetworkText(version, f.trailer.networkId)
  }

  function RequestTitle(actionType: u8): string {
    if actionType == 5 then "Create Staker"
    else if actionType == 6 then "Add Stake"
    else if actionType == 7 then "Update Staker"
    else if actionType == 8 then "Set Active Stake"
    else if actionType == 9 then "Retire Stake"
    else ""
  }

  /** Printable data are shown as they are, others in hexadecimal; there is no entry for none and for a Cashlink. */
  predicate TransferFor(screen: NormalScreen, recipient: Address, data: Bytes) {
    && screen.recipient == TextOf(recipient)
    && if data == [] || data == [0x00, 0x82, 0x80, 0x92, 0x87] then screen.data == None
       else if forall i :: 0 <= i < |data| ==> 32 <= data[i] <= 126 then
         screen.data == Some(DataEntry("Data", Text(data)))
       else
         screen.data == Some(DataEntry("Data Hex", HexText(data)))
  }

  /** A staker who is not the sender is named, by the data or by the key of a proof that is not yet to be created. */
  predicate RequestFor(screen: StakingScreen, data: Bytes, sender: Address, addressOf: PublicKey -> Address)
    requires IsStakingData(data)
  {
    var kind, k := data[0], |data| - 98;
    && screen.amount == (if kind >= 8 then Some(NimText(U64At(data, 1))) else None)
    && screen.delegation == (if (kind == 5 || kind == 7) && data[1] != 0 then Some(TextOf(data[2..22])) else None)
    && screen.reactivateAllStake == (if kind == 7 then Some(if data[k - 1] != 0 then "Yes" else "No") else None)
    && if kind == 6 then
         screen.staker == if data[1..21] == sender then None else Some(TextOf(data[1..21]))
       else if forall i :: k <= i < |data| ==> data[i] == 0 then
         screen.staker == None
       else
         var staker := addressOf(data[k + 1..k + 33]);
         screen.staker == if staker == sender then None else Some(TextOf(staker))
  }

  predicate EntriesFor(entries: Confirmation.Entries, f: Fields, addressOf: PublicKey -> Address) {
    var p := f.parties;
    if p.senderType == 3 then
      entries.NormalEntries? && TransferFor(entries.normal, p.recipient, [])
    else if p.recipientType == 0 then
      entries.NormalEntries? && TransferFor(entries.normal, p.recipient, p.data)
    else if p.recipientType == 1 then
      && entries.VestingEntries? && |p.data| >= 20
      && entries.vesting.owner == (if p.data[..20] == p.sender then None else Some(TextOf(p.data[..20])))
    else if p.recipientType == 2 then
      && entries.HtlcEntries? && IsHtlcData(p.data)
      && HtlcEntriesFor(entries.htlc, p.data, p.sender, f.trailer.validityStartHeight)
    else
      entries.StakingEntries? && IsStakingData(p.data) && RequestFor(entries.staking, p.data, p.sender, addressOf)
  }

  lemma TransferShown(recipient: Address, data: Bytes, init: NormalTx)
    ensures TransferFor(NormalScreenOf(NormalDisplay(recipient, Display(data), init)), recipient, data)
    ensures Display(data).isCashlink <==> data == [0x00, 0x82, 0x80, 0x92, 0x87]
  {
    hide TextOf, HexText, Text;
  }

  lemma RequestShown(data: Bytes, sender: Address, addressOf: PublicKey -> Address, title: LabelType, end: nat,
                     init: StakingTx)
    requires IsStakingData(data)
    ensures var a := Staking.Action(BodyOf(data), ProofOf(data));
            var screen := StakingScreenOf(title, Staking.DisplayOf(a, sender, addressOf, end, init));
            RequestFor(screen, data, sender, addressOf)
  {
    hide TextOf, NimText, U64At, Staking.DisplayOf, Staking.StakerText, BodyOf, ProofOf;
    MembersFilled(data, sender, addressOf, end, init);
    StakerShown(data, sender, addressOf);
    if (data[0] == 5 || data[0] == 7) && data[1] != 0 {
      TextInjective(data[2..22], sender);
    }
  }

  lemma MembersFilled(data: Bytes, sender: Address, addressOf: PublicKey -> Address, end: nat, init: StakingTx)
    requires IsStakingData(data)
    ensures var a := Staking.Action(BodyOf(data), ProofOf(data));
            var t := Staking.DisplayOf(a, sender, addressOf, end, init);
            && t.actionType == data[0] && t.stakerAddress == Staking.StakerText(a, sender, addressOf)
            && (data[0] == 5 || data[0] == 7 ==> t.delegation == if data[1] == 0 then "" else TextOf(data[2..22]))
            && (data[0] == 7 ==> t.reactivateAllStake == if data[|data| - 99] != 0 then "Yes" else "No")
            && (data[0] >= 8 ==> t.amount == NimText(U64At(data, 1)))
  {
    hide TextOf, NimText, U64At, Staking.StakerText, ProofOf;
  }

  /** The text for the staker is empty if none is named. */
  predicate StakerFor(text: string, data: Bytes, sender: Address, addressOf: PublicKey -> Address)
    requires IsStakingData(data)
  {
    var k := |data| - 98;
    if data[0] == 6 then
      if data[1..21] == sender then text == "" else text == TextOf(data[1..21]) != ""
    else if forall i :: k <= i < |data| ==> data[i] == 0 then text == ""
    else
      var staker := addressOf(data[k + 1..k + 33]);
      if staker == sender then text == "" else text == TextOf(staker) != ""
  }

  lemma StakerShown(data: Bytes, sender: Address, addressOf: PublicKey -> Address)
    requires IsStakingData(data)
    ensures StakerFor(Staking.StakerText(Staking.Action(BodyOf(data), ProofOf(data)), sender, addressOf), data, sender,
                      addressOf)
  {
    hide U64At, SP.IsEmptyDefault, Staking.StakerText;
    var a := Staking.Action(BodyOf(data), ProofOf(data));
    if data[0] == 6 {
      NamedStaker(a, sender, addressOf);
    } else {
      ZeroProof(data);
      SigningStaker(a, sender, addressOf);
    }
  }

  lemma NamedStaker(a: Staking.Action, sender: Address, addressOf: PublicKey -> Address)
    requires a.body.Add?
    ensures var text := Staking.StakerText(a, sender, addressOf);
            if a.body.staker == sender then text == "" else text == TextOf(a.body.staker) != ""
  {
    hide TextOf;
    TextInjective(a.body.staker, sender);
  }

  lemma SigningStaker(a: Staking.Action, sender: Address, addressOf: PublicKey -> Address)
    requires !a.body.Add? && a.proof.Some?
    ensures var text := Staking.StakerText(a, sender, addressOf);
            if SP.IsEmptyDefault(a.proof.value) then text == ""
            else var staker := addressOf(a.proof.value.publicKey);
                 if staker == sender then text == "" else text == TextOf(staker) != ""
  {
    hide TextOf, SP.IsEmptyDefault;
    TextInjective(addressOf(a.proof.value.publicKey), sender);
  }

  /** Type byte and path length are zero anyway. */
  lemma ZeroProof(data: Bytes)
    requires IsStakingData(data) && data[0] != 6
    ensures |data| - 98 == BodyEnd(data)
    ensures SP.IsEmptyDefault(ProofOf(data).value) <==> forall i :: |data| - 98 <= i < |data| ==> data[i] == 0
  {
    hide U64At;
    var p, k := ProofOf(data).value, |data| - 98;
    assert forall i :: 0 <= i < 32 ==> p.publicKey[i] == data[k + 1 + i];
    assert forall i :: 0 <= i < 64 ==> p.signature[i] == data[k + 34 + i];
    if SP.IsEmptyDefault(p) {
      forall i | k <= i < |data|
        ensures data[i] == 0
      {
        if k < i < k + 33 {
          assert p.publicKey[i - k - 1] == 0;
        } else if i > k + 33 {
          assert p.signature[i - k - 34] == 0;
        }
      }
    }
  }

  /** The members for the head of the screen are not touched by what depends on the kind, but for the label. */
  lemma LabelShown(version: u8, f: Fields, addressOf: PublicKey -> Address, init: Parsed)
    requires Interpret(version, f, addressOf, init).Ok?
    ensures var shown := Interpret(version, f, addressOf, init).value;
            && Confirmation.TitleOf(shown.labelType) == TitleFor(f.parties)
            && shown.value == init.value && shown.fee == init.fee && shown.network == init.network
  {
    hide Vesting.Outcome, Htlc.Outcome, NormalDisplay, Display, Staking.BodyDisplay, Staking.ProofDisplay,
         Staking.TakeAction, BodyOf, ProofOf, IsStakingData;
    var p := f.parties;
    if p.senderType == 3 {
    } else if p.recipientType == 0 {
      TransferShown(p.recipient, p.data, init.normal);
    } else if p.recipientType == 3 {
      ActionTaken(p.data);
      LabelOfRequest(p.data);
    }
  }

  lemma LabelOfRequest(data: Bytes)
    requires IsStakingData(data)
    ensures data != [] && Confirmation.TitleOf(IncomingLabel(BodyOf(data))) == RequestTitle(data[0])
  {
    hide EndsWithProof, U64At;
  }

  lemma HeadShown(version: u8, f: Fields, addressOf: PublicKey -> Address, init: Parsed)
    requires WellFormed(version, f)
    requires Interpret(version, f, addressOf, CommonDisplay(version, f, init)).Ok?
    ensures var shown := Interpret(version, f, addressOf, CommonDisplay(version, f, init)).value;
            HeadFor(Confirmation.ScreenOf(shown), version, f)
  {
    hide Interpret, NimText, Confirmation.EntriesOf, Confirmation.TitleOf, TitleFor;
    LabelShown(version, f, addressOf, CommonDisplay(version, f, init));
    NimTextInjective(f.amounts.value, 0);
    NimTextInjective(f.amounts.fee, 0);
    NetworkNames(version, f.trailer.networkId);
  }

  lemma EntriesShown(version: u8, f: Fields, addressOf: PublicKey -> Address, init: Parsed)
    requires WellFormed(version, f)
    requires Interpret(version, f, addressOf, CommonDisplay(version, f, init)).Ok?
    ensures var shown := Interpret(version, f, addressOf, CommonDisplay(version, f, init)).value;
            EntriesFor(Confirmation.EntriesOf(shown), f, addressOf)
  {
    hide TransferFor, HtlcEntriesFor, RequestFor, NormalScreenOf, NormalDisplay, HtlcScreenOf, StakingScreenOf, Display,
         Staking.DisplayOf, Staking.TakeAction, Vesting.Outcome, Htlc.Outcome, IsStakingData, BodyOf, ProofOf;
    var p := f.parties;
    if p.senderType == 3 {
      TransferShown(p.recipient, [], init.normal);
      EmptyTransfer(p.recipient, init.normal);
    } else if p.recipientType == 0 {
      TransferShown(p.recipient, p.data, init.normal);
    } else if p.recipientType == 1 {
      OwnerShown(version, p.data, p.sender, p.senderType, f.amounts.value);
    } else if p.recipientType == 2 {
      HtlcTaken(version, p.data, p.sender, p.senderType, f.trailer.validityStartHeight);
      HtlcEntriesAt(version, p.data, p.sender, p.senderType, f.trailer.validityStartHeight);
    } else {
      ActionTaken(p.data);
      RequestShown(p.data, p.sender, addressOf, IncomingLabel(BodyOf(p.data)), DataEnd(f), init.staking);
    }
  }

  lemma EmptyTransfer(recipient: Address, init: NormalTx)
    ensures NormalScreenOf(NormalDisplay(recipient, Display([]), init))
         == NormalScreenOf(NormalDisplay(recipient, Shown(false, "", ""), init))
  {
  }

  lemma OwnerShown(version: u8, data: Bytes, sender: Address, senderType: u8, value: u64)
    requires Vesting.Outcome(version, data, sender, senderType, value).Ok?
    ensures |data| >= 20
    ensures var t := Vesting.Outcome(version, data, sender, senderType, value).value;
            Entry(V.HasOwnerAddressEntry(t), t.ownerAddress)
            == if data[..20] == sender then None else Some(TextOf(data[..20]))
  {
    hide TextOf, VS.ScheduleOf, Vesting.TakeTerms;
  }

  /** The screen for an accepted transaction, said of its bytes. */
  lemma ScreenShown(version: u8, s: Bytes, addressOf: PublicKey -> Address, init: Parsed) returns (f: Fields)
    requires Outcome(version, s, addressOf, init).Ok?
    ensures FieldsAt(version, s, f) && Accepts(version, f)
    ensures var screen := Confirmation.ScreenOf(Outcome(version, s, addressOf, init).value);
            HeadFor(screen, version, f) && EntriesFor(screen.entries, f, addressOf)
  {
    hide FieldsAt, Accepts, WellFormed, Outcome, Interpret, CommonDisplay, HeadFor, EntriesFor;
    f := AcceptedAcceptable(version, s, addressOf, init);
    HeadShown(version, f, addressOf, init);
    EntriesShown(version, f, addressOf, init);
  }

  // ---------------------------------------------------------------------------------------------------------------
  // What a vesting contract releases

  /** What a contract with these parameters has released at height `h`, with a step behind every `blocks` blocks. */
  function VestedAt(value: int, locked: int, start: int, blocks: int, amount: int, h: int): int
    requires blocks > 0
  {
    var rest := locked - (h - start) / blocks * amount;
    if rest <= 0 then value else if rest >= value then 0 else value - rest
  }

  /**
   What a reader takes to be released at height `h` is what the contract with these data releases, but before the start
   only if nothing is pre-vested. Of short data the start is block 0 and the only step is for the whole value; in longer
   ones the locked amount may be missing and is the value.
   */
  predicate ReleasesAs(released: int, data: Bytes, value: u64, h: int) {
    var n := |data|;
    && (n == 24 || n == 36 || n == 44)
    && var start := if n == 24 then 0 else U32At(data, 20);
       var blocks := if n == 24 then U32At(data, 20) else U32At(data, 24);
       var amount := if n == 24 then value else U64At(data, 28);
       var locked := if n == 44 then U64At(data, 36) else value;
       if blocks == 0 || amount == 0 then released == value
       else released == VestedAt(value, locked, start, blocks, amount, h) <==> h >= start || locked >= value
  }

  /** The entries for a vesting contract, said of the bytes of the transaction. */
  lemma ReleaseShown(version: u8, s: Bytes, addressOf: PublicKey -> Address, init: Parsed, h: int)
    returns (f: Fields)
    requires Outcome(version, s, addressOf, init).Ok?
    requires Confirmation.ScreenOf(Outcome(version, s, addressOf, init).value).title == "Vesting"
    ensures FieldsAt(version, s, f) && Accepts(version, f)
    ensures var entries := Confirmation.ScreenOf(Outcome(version, s, addressOf, init).value).entries;
            && entries.VestingEntries?
            && ReleasesAs(V.ReadScreen(entries.vesting).Released(h), f.parties.data, f.amounts.value, h)
  {
    hide FieldsAt, Accepts, WellFormed, Confirmation.TitleOf, NimText, V.ScreenOf, V.ReadScreen, ReleasesAs;
    f := AcceptedAcceptable(version, s, addressOf, init);
    HeadShown(version, f, addressOf, init);
    VestingTitle(f.parties);
    VestingAccepted(version, s, f, addressOf, init);
    VestingRelease(version, s, f, addressOf, init, h);
  }

  lemma VestingTitle(p: Parties)
    ensures TitleFor(p) == "Vesting" <==> p.senderType != 3 && p.recipientType == 1
  {
    assert |"Transaction"| == 11 && |"Cashlink"| == 8 && |"HTLC / Swap"| == 11 && "Unstake"[0] != "Vesting"[0];
    assert |"Vesting"| == 7;
    if p.data != [] {
      RequestTitleLength(p.data[0]);
    }
  }

  lemma RequestTitleLength(actionType: u8)
    ensures |RequestTitle(actionType)| != 7
  {
  }

  /** The bytes of the parameters. */
  lemma ParamsBehindOwner(owner: Address, terms: Vesting.Terms, value: u64)
    ensures var data, p := Vesting.PutVesting(owner, terms), Vesting.ParamsOf(terms, value);
            var n := |data|;
            && (n == 24 || n == 36 || n == 44)
            && p.start == (if n == 24 then 0 else U32At(data, 20))
            && p.stepBlocks == (if n == 24 then U32At(data, 20) else U32At(data, 24))
            && p.stepAmount == (if n == 24 then value else U64At(data, 28))
            && p.totalLocked == (if n == 44 then U64At(data, 36) else value)
  {
    hide U32At, U64At, Vesting.TakeTerms, Vesting.PutTerms, Vesting.ParamsOf;
    var data := Vesting.PutVesting(owner, terms);
    Vesting.TakePutTerms(terms);
    Vesting.TermsAt(Vesting.PutTerms(terms), value);
    assert data[20..] == Vesting.PutTerms(terms);
    Behind(data, 20, 0);
    if |data| >= 36 {
      Behind(data, 20, 4);
      Behind(data, 20, 8);
    }
    if |data| == 44 {
      Behind(data, 20, 16);
    }
  }

  lemma VestingAccepted(version: u8, s: Bytes, f: Fields, addressOf: PublicKey -> Address, init: Parsed)
    requires WellFormed(version, f) && f.parties.senderType != 3 && f.parties.recipientType == 1
    requires Outcome(version, s, addressOf, init).Ok?
    requires Outcome(version, s, addressOf, init) == Interpret(version, f, addressOf, CommonDisplay(version, f, init))
    ensures V.Accepted(version, s, addressOf, init)
    ensures var shown := Outcome(version, s, addressOf, init).value;
            Confirmation.EntriesOf(shown) == Confirmation.VestingEntries(V.ScreenOf(shown))
  {
    hide Outcome, Vesting.Outcome, V.ScreenOf, WellFormed, CommonDisplay;
  }

  /** The law for the parameters is one for the bytes. */
  lemma ReleaseOfBytes(owner: Address, terms: Vesting.Terms, value: u64, released: int, h: int)
    requires var p := Vesting.ParamsOf(terms, value);
             released == VS.ContractReleased(p, value, h) <==> p.Immediate() || h >= p.start || p.totalLocked >= value
    ensures ReleasesAs(released, Vesting.PutVesting(owner, terms), value, h)
  {
    hide U32At, U64At, Vesting.PutVesting, Vesting.ParamsOf;
    ParamsBehindOwner(owner, terms, value);
  }

  lemma VestingRelease(version: u8, s: Bytes, f: Fields, addressOf: PublicKey -> Address, init: Parsed, h: int)
    requires WellFormed(version, f) && TakeFields(version, s) == Ok(f) && V.Accepted(version, s, addressOf, init)
    ensures var released := V.ReadScreen(V.ScreenOf(Outcome(version, s, addressOf, init).value)).Released(h);
            ReleasesAs(released, f.parties.data, f.amounts.value, h)
  {
    hide Outcome, Serialize, WellFormed, V.ScreenOf, V.ReadScreen, VS.ContractReleased, ReleasesAs, TakeFields,
         Vesting.PutVesting, Vesting.ParamsOf;
    var g, owner, terms := V.ScreenTellsRelease(version, s, addressOf, init, h);
    FieldsRoundTrip(version, g);
    VestingDescribed(version, g, owner, terms);
    var released := V.ReadScreen(V.ScreenOf(Outcome(version, s, addressOf, init).value)).Released(h);
    ReleaseOfBytes(owner, terms, f.amounts.value, released, h);
  }

  lemma VestingDescribed(version: u8, f: Fields, owner: Address, terms: Vesting.Terms)
    requires Describes(version, f, VestingCreation(owner, terms))
    ensures f.parties.data == Vesting.PutVesting(owner, terms)
  {
  }
}
