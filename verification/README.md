# Verification of the Nimiq Ledger app's transaction and message signing

A Dafny model of the path that a request takes through the app: bytes arrive in chunks, are parsed, are turned into text
that a person approves, and are signed. The modules follow the source files. Code that works in place (cursors, buffers,
contexts, the proof that is patched into a received transaction) is modelled by classes and methods on arrays; every
method is proved against a function of its inputs, and the properties are proved of these functions.

`dafny verify dfyconfig.toml` checks everything. Every member is meant to stay well below a resource limit of 2000000.

## What is proved

1. **Vesting schedules.** The schedule that the app computes in 32 and 64 bits is compared with the contract's own rule.
   They release the same amount at every height from the start block on. Before the start block they do so exactly if no
   amount is pre-vested: the app presents the pre-vested amount as available from the outset, while the rule, with its
   quotient rounded down, also counts steps before the start.
   On top of this, the *screen* is shown to tell the truth: a reader who knows which entries are left out, and why,
   reconstructs step by step exactly the schedule of every accepted transaction (`ScreenTellsRelease`).
2. **Addresses.** The bit-buffer encoder and a decoder are inverse in both directions, the piecewise remainder is the
   remainder of the whole number (whatever stands in the cell behind the array that the last round touches), the check
   digits validate as in ISO/IEC 7064 MOD 97-10, and which errors they detect is characterised exactly.
3. **The parser.** `parse_tx` accepts exactly the serialisations of supported transactions and recovers every field; what
   it accepts has at most 188 bytes, and 188 is reached.
4. **Rendering.** Amounts, numbers, addresses and data are printed canonically and injectively, so that comparing texts,
   as the display predicates do, is comparing values. For two accepted transactions of any kinds the complete screens are
   the same if and only if value, fee, network and content are (`Confirmation.ScreenDetermines`).
5. **The protocol.** However a request is split into chunks, the outcome is that of the whole. After every iteration of
   the main loop the context is in order, although an over-long chunk leaves a length behind that exceeds the buffer until
   the wipe. The created staker proof changes 96 bytes and nothing else, and what is signed parses to what was approved.
   `RequestSigned` puts this together, from an answered request to the returned signatures.
6. **Bytes.** What the other laws say by names is said once more by numbers: where every field of a transaction stands,
   which byte strings are accepted, if and only if, and what literal texts are shown for them (`Layout`); what bytes a host
   sends and what they lead to (`HostRequestSigned`, `HostFrameHeld`); what bytes are hashed for a message; and that the
   key in a created proof is the encoding of its point.

## Where the code differs from its documentation, or a property needs a condition

- `src/nimiq_ux_utils_transaction_signing.c:107-108` says that for 0 steps only the pre-vested amount is shown. The code
  (line 122) also shows a single vesting block for 0 steps; the model follows the code (`EntriesByNumbers`).
- `src/nimiq_utils.c:548` and `569` say that two 32-bit sums cannot overflow. They are exact if and only if there is a step
  that unlocks funds, or room for one more step after the end (`VestingSchedule.NoWrap`; `StepsExist` says when there is
  such a step). `WrappedBlockShown` gives an accepted transaction for which the screen says block 0 instead of 2^32. What is
  released is not affected.
- Before its start block a contract with a pre-vested amount may have released less than the screen says; `PreVestedShown`
  gives an accepted transaction.
- Swapping neighbours in an address is not detected for `1B`, `2M` and `3X` and their reverses, and for no other pair of
  symbols (`SwapOfSymbols`); `UnnoticedSwap` gives two addresses.
- The length check at `src/main.c:606` adds in 32 bits. It says what it is meant to say exactly for announced lengths up to
  2^32 - 256 (`CheckExact`). For every longer one there is a request with 2^32 more bytes than announced that is accepted,
  and what is hashed for signing is then not the frame of any message (`WrappedRequest`).
- `print_hex` writes nothing for no bytes. The hexadecimal display of an empty message therefore shows whatever the buffer
  held before (`PreparePrintedMessage`), which `ShowEmptyAfter` reaches; ASCII is chosen for an empty message unless
  hexadecimal display was asked for. In the model, "before" is the last printed message, as the buffer is a separate field.
  On the device it shares memory with the hash contexts (src/globals.h:68-82), so that what is read depends on their bytes
  unless something else was printed in between, as by the step for the message length at src/nimiq_ux_bagl.c:440-452.
- The second check in `src/nimiq_staking_utils.c:127-133` can never fail: `read_signature_proof` has refused such proofs
  before, so that they lead to a read error instead of the error for unsupported data.

## Model

| member | source | states |
|---|---|---|
| `VestingSchedule.Translate` | src/nimiq_utils.c:470-555 | the computation in 32- and 64-bit variables yields the schedule over unbounded integers, or the error exactly if the steps end after the last representable block; no assignment leaves its type but for two marked truncations |
| `VestingSchedule.CeilDivU64` | src/nimiq_utils.c:497 | within 64 bits, the least number of steps that covers the locked amount: it is enough, and one less is not |
| `VestingSchedule.CountSteps` | src/nimiq_utils.c:509-521 | the step count leaves out exactly the steps that vest virtual funds only |
| `VestingSchedule.AdaptFirstStep` | src/nimiq_utils.c:532-554 | first step and pre-vested amount for more, less or exactly as much locked as the contract holds |
| `VestingSchedule.NoWrap` | src/nimiq_utils.c:548-569 | the two sums that are said not to overflow are exact if and only if there is a step that unlocks funds or room for one more step after the end |
| `VestingSchedule.StepsExist` | src/nimiq_utils.c:509-521 | there is a step that unlocks funds if and only if an amount is locked, and the contract has funds or the locked amount is not a whole number of steps |
| `VestingSchedule.FirstStepInPeriod` | src/nimiq_utils.c:523-569 | with such a step the first one lies within the period, which ends at a representable block |
| `VestingSchedule.WrappedBlock` | src/nimiq_utils.c:568-569 | accepted parameters for which the block of the funds is computed as 0 instead of 2^32 |
| `VestingSchedule.Conservation` | src/nimiq_utils.c:532-554 | with several steps the pre-vested, first, regular and last amounts add up to the transaction amount, and the first and last amounts are positive and at most the regular one |
| `VestingSchedule.ScheduleRefinesContract` | src/nimiq_utils.c:478-555 | the schedule releases what the contract releases at a height if and only if vesting is immediate, the height is not before the start, or nothing is pre-vested |
| `VestingSchedule.PreVestedBeforeStart` | src/nimiq_utils.c:539-541 | parameters for which schedule and contract differ before the start block |
| `VestingCreation.ReadTerms` | src/nimiq_utils.c:438-468 | the three forms of the data are told apart by length and read with the defaults for what is missing, as `TermsAt`, `ShortForm` and `MediumForm` have them |
| `VestingCreation.ParseVestingCreationData` | src/nimiq_utils.c:406-579 | the struct and the error code are those of the outcome as a function of the bytes, errors in order of detection |
| `VestingCreation.OutcomeOf` | src/nimiq_utils.c:406-579 | every serialised contract that can be represented and printed is accepted and displayed with the entries of its schedule |
| `VestingCreation.AcceptedData` | src/nimiq_utils.c:406-579 | nothing else is accepted: accepted data are the serialisation of such a contract whose owner is not the creating contract |
| `VestingCreation.OnlyStepAmountMatters` | src/nimiq_utils.c:570-576 | with a printable transaction amount, printing can fail for the step amount only |
| `VestingCreation.ShortForm` | src/nimiq_utils.c:438-447 | four bytes behind the owner have the outcome of start block 0 and one step for the whole amount, written out |
| `VestingCreation.MediumForm` | src/nimiq_utils.c:448-468 | sixteen bytes behind the owner have the outcome of the same bytes followed by the amount of the transaction |
| `VestingCreation.TermsAt` | src/nimiq_utils.c:438-468 | data are terms exactly for 4, 16 or 24 bytes, and each parameter is the number at its place, or its default |
| `VestingCreation.ShortFormShown` | src/nimiq_utils.c:438-447 | in the short form, for positive numbers, the only block shown is the given one and nothing is pre-vested |
| `TransactionScreen.HtlcTexts` | src/nimiq_ux_utils_transaction_signing.c:81-99 | equality of HTLC texts, and the comparison with "1", is equality of the values they stand for |
| `TransactionScreen.HtlcScreenDetermines` | src/nimiq_ux_utils_transaction_signing.c:38-99 | two HTLCs look the same if and only if they agree in redeem address, hash and refund address (no address for the sender), and in hash count and timeout unless it is a refund to the sender that is due soon |
| `TransactionScreen.HtlcEntriesAt` | src/nimiq_ux_utils_transaction_signing.c:81-99 | the entries of every accepted HTLC by its bytes: for a refund to the sender the timeout is missing if and only if it is less than 89280 blocks after the validity start height, the hash count if and only if that holds or it is 1, the algorithm if and only if that holds and it is SHA-256; for another refund address only a hash count of 1 is missing |
| `TransactionScreen.StakingScreenDetermines` | src/nimiq_ux_utils_transaction_signing.c:186-212 | two staking transactions look the same if and only if they ask for the same, the staker being named unless it is the sender |
| `TransactionScreen.NormalScreenDetermines` | src/nimiq_ux_utils_transaction_signing.c:34-36 | two transfers, with their mark as a Cashlink, look the same if and only if recipient and data are the same |
| `Confirmation.TitlesDistinct` | src/nimiq_ux_bagl.c:541-583 | the titles of all kinds are different texts |
| `Confirmation.ScreenDetermines` | src/nimiq_ux_bagl.c:112-426 | two accepted byte strings of any version and kind have the same complete screen if and only if they have the same value, fee, network and content; sender, validity start height, recipient of a contract creation and proof are not part of the content |
| `VestingScreen.EntriesByNumbers` | src/nimiq_ux_utils_transaction_signing.c:120-159 | each comparison of texts decides as the comparison of the numbers would |
| `VestingScreen.ScreenRead` | src/nimiq_ux_utils_transaction_signing.c:101-159 | reading the entries that are shown, and inferring those left out, gives the plan of the schedule |
| `VestingScreen.PlanReleases` | src/nimiq_utils.c:470-569 | the amounts of the steps that are over, summed up one by one, are the closed form of the schedule at every height |
| `VestingScreen.LastStepInTime` | src/nimiq_utils.c:523-550 | the last step ends where a regular one would |
| `VestingScreen.ScreenTellsRelease` | src/nimiq_ux_utils_transaction_signing.c:101-159 | for every accepted transaction, what a reader of the screen takes to be released at a height is what the contract releases if and only if vesting is immediate, the height is not before the start, or nothing is pre-vested |
| `VestingScreen.SameScreenSameRelease` | src/nimiq_ux_utils_transaction_signing.c:116-159 | contracts with the same screen hold the same amount and have the same schedule at every height |
| `VestingScreen.VestingScreenDetermines` | src/nimiq_ux_utils_transaction_signing.c:116-159 | two contracts look the same if and only if amount, owner (no address for the sender) and what is told of the schedule are the same |
| `VestingScreen.WrappedBlockShown` | src/nimiq_utils.c:568-569 | an accepted transaction for which the screen says "Vested at Block" 0 instead of 2^32 |
| `VestingScreen.PreVestedShown` | src/nimiq_utils.c:539-541 | an accepted transaction whose screen reads as if 5 were released at height 0, where the contract releases nothing |
| `Base32.Base32Encode` | src/base32.c:23-78 | succeeds exactly for lengths from 0 to 2^28 whose encoding is shorter than the buffer, and then writes the encoding and a terminator |
| `Base32.WriteSymbols` | src/base32.c:37-59 | the loop writes the symbols of the data's bits as far as the buffer allows and tracks how much of a quantum is left |
| `Base32.WritePadding` | src/base32.c:61-67 | a begun quantum is filled up with padding as far as the buffer allows |
| `Base32.LoadByte` | src/base32.c:40-42 | on a 32-bit word that drops its high bits, the low bits are those before with the byte's bits behind |
| `Base32.HighBitsIrrelevant` | src/base32.c:40 | bits above those that are left never matter |
| `Base32.RoundTrip` | src/base32.c:23-78 | a decoder recovers the data from the encoding |
| `Base32.EncodeInjective` | src/base32.c:23-78 | different data have different encodings |
| `Base32.EncodeDecode` | src/base32.c:23-78 | decoding a text of whole quanta of symbols and encoding again gives the text: every such text is an encoding |
| `Base32.PaddedAsRequired` | src/base32.c:54-67 | alphabet symbols followed by 0, 6, 4, 3 or 1 padding characters for 0 to 4 bytes in the last group, as in section 6 of RFC 4648 |
| `Base32.Grouping` | src/base32.c:37-59 | each group of five bytes is encoded for itself, as in section 6 of RFC 4648 |
| `Base32.EncodedNumber` | src/base32.c:37-59 | whole groups of bytes are encoded as the number that they form, digit by digit in base 32 with the letters of the alphabet |
| `Iban.ConvertToNumber` | src/nimiq_utils.c:49-73 | the cells hold the decimal number of the text exactly if all characters are letters and digits; the assertion on the counter holds |
| `Iban.ReadPiece` | src/nimiq_utils.c:80-86 | up to nine digits are read into a 32-bit number without overflow |
| `Iban.RemainderInPieces` | src/nimiq_utils.c:75-92 | ten rounds of nine digits compute the remainder of the whole number, including rounds past its end, whatever is behind the array |
| `Iban.ExpandedLength` | src/nimiq_utils.c:40-73 | the number has 38 to 70 digits |
| `Iban.IbanCheck` | src/nimiq_utils.c:29-97 | exactly the two check digits and a terminator are written, independently of the byte behind the array; other characters are an error and nothing is written |
| `Iban.CheckDigitsValidate` | src/nimiq_utils.c:88-94 | check digits are 02 to 98, and in place of the zeros they make the number congruent to 1 modulo 97 |
| `Iban.SubstitutionDetected` | src/nimiq_utils.c:29-97 | any wrong character of the same kind changes the check digits |
| `Iban.SwapDetected` | src/nimiq_utils.c:29-97 | swapping neighbours goes unnoticed if and only if they stand for the same number or one is a digit and the other the letter worth eleven times as much |
| `AddressText.SwapOfSymbols` | src/nimiq_utils.c:29-97 | within the alphabet of addresses exactly the swaps of 1B, 2M and 3X, and of equal symbols, go unnoticed |
| `AddressText.UnnoticedSwap` | src/nimiq_utils.c:29-97 | two different addresses with the same check digits whose texts differ by swapping 1B |
| `AddressText.PrintAddress` | src/nimiq_utils.c:100-125 | printing never fails and writes exactly the text and a terminator |
| `AddressText.TextRoundTrip` | src/nimiq_utils.c:100-125 | the address is recovered from its text |
| `AddressText.TextInjective` | src/nimiq_utils.c:100-125 | equal texts mean equal addresses, and no text is empty |
| `AddressText.PrintedForm` | src/nimiq_utils.c:100-125 | 44 characters, "NQ", eight groups of four behind spaces, and a number that validates as ISO 13616-1 has it |
| `AddressText.DigitAt` | src/nimiq_utils.c:100-125 | each character of each group is the digit of the address as a number in base 32 that belongs to this place |
| `Amount.ParseAmount` | src/nimiq_utils.c:170-231 | fails exactly for unsafe amounts and texts that do not fit, otherwise writes the canonical text, the ticker and a terminator; no assertion fails |
| `Amount.PrintReversed` | src/nimiq_utils.c:183-199 | the reversed buffer holds at least one whole digit, the point and five decimals, within 18 cells |
| `Amount.ReverseAndStrip` | src/nimiq_utils.c:200-213 | reversing and stripping yield the canonical text |
| `Amount.AmountRoundTrip` | src/nimiq_utils.c:170-231 | the text reads back as exactly the amount and has no superfluous zeros |
| `Amount.CanonicalAmountUnique` | src/nimiq_utils.c:170-231 | every text in canonical form is the one printed for the amount it denotes |
| `Amount.AmountInjective` | src/nimiq_utils.c:170-231 | different amounts are printed differently |
| `Amount.NimTextInjective` | src/nimiq_ux_utils_transaction_signing.c:24-32 | comparing texts with ticker is comparing amounts, and "0 NIM" is printed for 0 only |
| `Amount.NimTextExact` | src/nimiq_utils.c:170-231 | the digits before the point count 100000 Luna each, those behind it the decimal fraction of that; together they are the amount |
| `Hex.PrintHex` | src/nimiq_utils.c:154-167 | fails exactly if there is no room; writes two digits per byte and a terminator, but nothing at all for no bytes |
| `Hex.HexRoundTrip` | src/nimiq_utils.c:154-167 | the bytes are recovered from the digits |
| `Hex.HexTextAt` | src/nimiq_utils.c:154-167 | for every byte the upper-case digit of its high half, then that of its low half |
| `DataField.IsPrintableAscii` | src/nimiq_utils.c:1027-1032 | true exactly if every byte is in 32 to 126 |
| `DataField.ParseNormalTxData` | src/nimiq_utils.c:254-294 | fails exactly for more than 64 bytes, otherwise fills label and text as the display function has it |
| `DataField.DisplayLossless` | src/nimiq_utils.c:254-294 | label, text and the Cashlink mark determine the data, the text fits its buffer, and it is empty exactly for no data and Cashlinks |
| `DataField.DisplayInjective` | src/nimiq_utils.c:254-294 | different data are displayed differently |
| `DataField.TextAt` | src/nimiq_utils.c:254-294 | text that is shown has the bytes of the data as codes of its characters |
| `Decimal.NumeralRoundTrip` | src/nimiq_utils.c:561-569 | what is printed for a number reads back as the number and has no leading zero |
| `Decimal.NumeralInjective` | src/nimiq_ux_utils_transaction_signing.c:139 | comparing printed numbers is comparing numbers |
| `Cursors.Cursor.ReadSubBuffer` | src/nimiq_utils.c:593-613 | succeeds exactly if enough bytes are left; hands out a pointer to them without a copy and leaves the rest |
| `Cursors.Cursor.ReadU16` | src/nimiq_utils.c:627-636 | reads a big-endian number, or fails exactly if two bytes are missing |
| `Cursors.Cursor.ReadU32` | src/nimiq_utils.c:639-648 | reads a big-endian number of four bytes as two halves |
| `Cursors.Cursor.ReadU64` | src/nimiq_utils.c:651-660 | reads a big-endian number of eight bytes as two halves |
| `Cursors.Cursor.ReadBool` | src/nimiq_utils.c:663-671 | any byte but zero is true |
| `Cursors.Cursor.ReadSerdeUvarint` | src/nimiq_utils.c:679-702 | reads exactly the single-byte numbers, and nothing for a type of less than seven bits |
| `Cursors.Cursor.ReadSerdeVecU8` | src/nimiq_utils.c:709-724 | reads exactly what was written with a length of one byte, without a copy |
| `Cursors.Cursor.ReadBip32Path` | src/nimiq_utils.c:730-748 | reads one to ten entries, or fails exactly if they are missing |
| `Wire.TakePutU64` | src/nimiq_utils.c:651-660 | a written number is read back, with what follows it |
| `Wire.PutTakenU64` | src/nimiq_utils.c:651-660 | what was read is the bytes written for the number |
| `Wire.TakePutPath` | src/nimiq_utils.c:730-748 | a written path is read back |
| `Wire.PutTakenPath` | src/nimiq_utils.c:730-748 | the bytes that were read are those written for the path |
| `Wire.NumbersAt` | src/nimiq_utils.c:627-660 | numbers of two, four and eight bytes are the sums of their bytes times powers of 256, the first byte counting most |
| `Wire.PathTaken` | src/nimiq_utils.c:730-748 | a path is read exactly for one to ten entries in the first byte and four bytes for each, and every entry is the number at its place |
| `Wire.VecTaken` | src/nimiq_utils.c:709-724 | up to 127 bytes are read behind their length |
| `HtlcCreation.ParseHtlcCreationData` | src/nimiq_utils.c:297-403 | the struct and the error code are those of the outcome as a function of the bytes, errors in order of detection |
| `HtlcCreation.OutcomeOf` | src/nimiq_utils.c:297-403 | every serialised HTLC with a supported hash is accepted and displayed |
| `HtlcCreation.AcceptedData` | src/nimiq_utils.c:297-403 | nothing else is accepted |
| `SignatureProof.ReadSignatureProof` | src/signature_proof.c:26-47 | succeeds exactly for plain proofs, and the pointers point to key and signature in the original memory |
| `SignatureProof.IsEmptyDefaultSignatureProof` | src/signature_proof.c:49-67 | true exactly if type, path length and all 96 bytes are zero |
| `Staking.IsStakingContract` | src/nimiq_staking_utils.c:201-208 | true exactly for the one address of the staking contract |
| `Staking.ParseStakingIncomingData` | src/nimiq_staking_utils.c:35-166 | the struct, with pointers to the proof, and the error code are those of the outcome as a function of the bytes |
| `Staking.ParseStakingOutgoingData` | src/nimiq_staking_utils.c:169-199 | the type, or the error code, is that of the outcome as a function of the bytes |
| `Staking.TakePutAction` | src/nimiq_staking_utils.c:52-149 | serialised staking data are read back with all fields |
| `Staking.PutTakenAction` | src/nimiq_staking_utils.c:52-149 | whatever is read is the serialisation of what it was split into, boolean bytes kept as they are |
| `Staking.ActionLength` | src/constants.h:64-70 | staking data have at most 121 bytes, reached exactly by updates with a new delegation |
| `TransactionParser.ReadFields` | src/nimiq_utils.c:758-853 | the fields, pointers to the data parts and the members printed for every transaction are those of the byte string |
| `TransactionParser.Dispatch` | src/nimiq_utils.c:859-1022 | the outcome for the account types, with the checks of flags and addresses |
| `TransactionParser.ParseTx` | src/nimiq_utils.c:751-1025 | the struct and the error code are those of the outcome as a function of the bytes; the memory is only read |
| `Transaction.FieldsRoundTrip` | src/nimiq_utils.c:758-853 | every field of a serialised transaction is recovered |
| `Transaction.FieldsExact` | src/nimiq_utils.c:758-853 | a byte string that splits into fields is their serialisation: no byte is skipped or read twice |
| `Transaction.SerializedAccepted` | src/nimiq_utils.c:751-1025 | every supported transaction of every kind is accepted, and displayed as this kind |
| `Transaction.AcceptedSerialized` | src/nimiq_utils.c:751-1025 | every accepted byte string is the serialisation of a supported transaction, and displayed as this |
| `Transaction.AcceptedLength` | src/constants.h:53-71 | no accepted transaction of any version or kind is longer than 188 bytes |
| `Transaction.LongestAccepted` | src/constants.h:53-71 | some accepted transaction has 188 bytes |
| `Layout.SerializedAt` | src/nimiq_utils.c:758-853 | a byte string is the serialisation of fields if and only if each of them stands at its place, given as a number |
| `Layout.ActionTaken` | src/nimiq_staking_utils.c:52-149 | staking data are read if and only if type, lengths, amount and the fixed bytes of the proof are right, given as numbers; what is read stands at these places |
| `Layout.HtlcTaken` | src/nimiq_utils.c:297-403 | HTLC data are accepted if and only if length and algorithm byte fit together and the refund is not to a contract |
| `Layout.VestingTaken` | src/nimiq_utils.c:406-579 | vesting data are accepted if and only if they have one of three lengths, the last step, by the quotient rounded up, ends at a block of 32 bits, the step amount can be printed, and the owner is not a contract |
| `Layout.AcceptedExactly` | src/nimiq_utils.c:751-1025 | the parser accepts a byte string if and only if there are fields in their places that fit together, all of it said in numbers: networks, limits, flags and account types |
| `Layout.Refusals` | src/nimiq_utils.c:859-1022 | the error code for fields that do not fit together |
| `Layout.ScreenShown` | src/nimiq_ux_bagl.c:112-426 | title and entries of every accepted transaction as literal texts and as texts of the bytes at given places |
| `Layout.ReleaseShown` | src/nimiq_ux_utils_transaction_signing.c:101-159 | what a reader of the screen for a vesting contract takes to be released at any height is what the numbers in the transaction say, by one formula for all three forms, if and only if the height is not before the start or nothing is pre-vested |
| `SignTransaction.ReceivedFits` | src/main.c:519-529 | after any sequence of commands no more is received than the buffer holds |
| `SignTransaction.OpeningReceives` | src/main.c:499-534 | parts are put one behind the other, and all are answered with success exactly as long as they fit |
| `SignTransaction.ChunkingTransparent` | src/main.c:488-546 | a request in any chunks succeeds if and only if the whole transaction is accepted by the parser, then the context holds all of it and its display; replies and context are those for a single chunk |
| `SignTransaction.HeaderAt` | src/main.c:499-518 | path and version in front of the first part, byte by byte |
| `SignTransaction.Refused` | src/main.c:536-545 | a transaction that is not accepted is answered with the status word of the error and leaves an empty context |
| `Protocol.ApduDecoded` | src/main.c:729-746 | exactly the byte strings with P1, P2 and the length of the data at positions 2, 3 and 4, and the data behind, are commands, and are taken as they were meant |
| `Protocol.HostRequestDecoded` | src/main.c:47-50 | the APDUs of a request, with P1 0x00 for the first and 0x80 for later ones, and P2 0x80 for all but the last and 0x00 for that, are the commands of the request |
| `SignTransaction.TransactionContext.ReceiveNextChunk` | src/main.c:519-529 | the chunk is put behind what was received, or, if it does not fit, the length exceeds the buffer and the buffer is untouched |
| `SignTransaction.TransactionContext.HandleSignTransaction` | src/main.c:488-546 | status word, review and new context are those of the step |
| `SignTransaction.TransactionContext.ProcessCommand` | src/main.c:769-803 | one iteration of the main loop is the step, and the context is in order afterwards, wiped after any error |
| `TransactionApproval.CopyPublicKey` | src/main.c:196-203 | the key is written turned round and with the parity bit, and nothing else |
| `PublicKeys.KeyBytes` | src/main.c:196-203 | the key is the second coordinate turned round, the topmost bit being set if it was or if the first coordinate is odd |
| `PublicKeys.KeyEncodesPoint` | src/main.c:196-203 | as a number the key is the second coordinate, which is below 2^255 on the curve, plus the parity of the first one in bit 255, as in section 5.1.2 of RFC 8032 |
| `PublicKeys.KeyDeterminesPoint` | src/main.c:196-203 | two points with second coordinates below 2^255 have the same key if and only if the second coordinates and the parities of the first ones are the same |
| `TransactionApproval.CreateProof` | src/main.c:155-203 | exactly the key and the signature of the proof are overwritten, the signature being that of the bytes before |
| `TransactionApproval.OnTransactionApproved` | src/main.c:107-242 | the transaction in memory, what stands behind it and the 64 or 128 bytes that are returned |
| `TransactionApproval.IsProofMissing` | src/main.c:151-154 | the struct and the bytes it points to tell exactly whether the proof of the received transaction is still to be created, and where it stands |
| `TransactionApproval.RequestSigned` | src/main.c:107-242 | for every request that was answered with success, in any chunks, the response is the signature of the whole transaction; or, if the proof was missing, the signature of the transaction with 96 bytes replaced, which parses to what was displayed with the staker named unless it is the sender, and the staker's signature of the whole transaction |
| `TransactionApproval.HostRequestSigned` | src/main.c:488-546 | the same for the APDUs that a host sends, with every field at its place and the proof missing if and only if the data for a staker end with 98 zeros |
| `TransactionApproval.ProofMissingAt` | src/main.c:151-154 | the proof is still to be created if and only if these bytes are zero and stake is not just added |
| `TransactionApproval.Serve` | src/main.c:769-803 | after any APDUs, processed one by one in the APDU buffer, approval returns the response for the context that the commands lead to |
| `TransactionApproval.ProofReplaced` | src/main.c:176-203 | replacing the proof of the fields is overwriting 32 and 64 bytes of the transaction, everything else keeps its place |
| `TransactionApproval.SignedParsesAsApproved` | src/main.c:139-204 | the transaction with the created proof, if that is not all zero, parses to what was approved but for the staker, whose address is empty if and only if the key's address is the sender |
| `TransactionApproval.StakerSignedWithoutProof` | src/main.c:145-149 | putting the empty proof back into the signed transaction gives the bytes that the staker's signature is for |
| `TransactionApproval.RequestReviewed` | src/main.c:536-545 | what is put up for approval was parsed from all chunks together |
| `TransactionApproval.ReviewedProof` | src/nimiq_staking_utils.c:120-126 | the pointers in a parsed transaction point to the key and the signature of its proof |
| `SignMessage.CheckExact` | src/main.c:605-609 | the length check is exact at every point of a message if and only if the announced length is at most 2^32 - 256 |
| `SignMessage.OpeningAbsorbs` | src/main.c:560-636 | while all chunks are answered with success, hash inputs and copy are those of the chunks together; without wrap-around this is so exactly as long as they are not longer than announced |
| `SignMessage.ChunkingTransparent` | src/main.c:549-643 | an accepted last chunk leaves the hash inputs, the copy and the ASCII mark of the message as a whole; without wrap-around all chunks are accepted if and only if the message has the announced length |
| `SignMessage.HeaderAt` | src/main.c:560-567 | path, flags and length in front of the first part, byte by byte |
| `SignMessage.MessageContext.AbsorbChunk` | src/main.c:604-631 | check, copy, ASCII mark and both hash inputs after a chunk |
| `SignMessage.MessageContext.HandleSignMessage` | src/main.c:549-692 | status word, review, new context, and hashes and display type for the confirmation |
| `SignMessage.MessageContext.ProcessCommand` | src/main.c:769-803 | one iteration of the main loop is the step, and the context is in order afterwards, wiped after any error |
| `MessageApproval.FrameLength` | src/main.c:575-601 | a longer message has a longer frame |
| `MessageApproval.FrameInjective` | src/main.c:575-626 | different messages of any length have different frames |
| `MessageApproval.CharBytesAt` | src/main.c:589-601 | ASCII text is hashed as the codes of its characters |
| `MessageApproval.PrefixFramed` | src/main.c:575-601 | what is hashed for signing is a byte 22, "Nimiq Signed Message:" and a line feed, the decimal digits of the announced length, and the message |
| `MessageApproval.HashIsNoTransaction` | src/main.c:575-578 | the hash that is signed for a message is never a transaction that the app would sign |
| `MessageApproval.FrameHeld` | src/main.c:560-643 | after every accepted request both hash inputs are those of the message as a whole, the one for signing with the text and the digits of the announced length in front, byte by byte, and messages of up to 160 bytes were copied and examined completely; the announced length is that of the message if and only if this has less than 2^32 bytes |
| `MessageApproval.HostFrameHeld` | src/main.c:549-643 | the same for the APDUs that a host sends, which without wrap-around are all answered with success if and only if the message has the announced length |
| `LongMessage.WrappedRequest` | src/main.c:605-630 | for every announced length above 2^32 - 256 a request with 2^32 more bytes is accepted, and its hash input for signing is the frame of no message |
| `MessageApproval.ReceivedCanBeShown` | src/main.c:677-689 | the display type that is chosen suits the message: text exactly for up to 160 bytes from 32 to 126 and none of the two flags, hexadecimal for other short messages unless the second flag is set, the hash otherwise |
| `MessageApproval.PreparePrintedMessage` | src/nimiq_ux_utils_message_signing.c:21-46 | no assertion fails and label and buffer read as the screen for the message; for no bytes in hexadecimal the buffer reads as before |
| `MessageApproval.ScreenDetermines` | src/nimiq_ux_utils_message_signing.c:21-46 | two screens that are each about their message are the same if and only if display type and message, or hash if that is displayed, are the same |
| `MessageApproval.OwnTextShown` | src/nimiq_ux_utils_message_signing.c:29-36 | the screen is about its message if and only if it is not the empty one in hexadecimal, or the buffer read as empty before |
| `MessageApproval.EmptyLooksLikeBefore` | src/nimiq_utils.c:163-165 | the empty message in hexadecimal looks like the message whose digits were shown before, if that was not empty |
| `MessageApproval.ShowEmptyAfter` | src/nimiq_ux_utils_message_signing.c:29-36 | receiving and showing any short message in hexadecimal and then the empty one leaves the digits of the first on the screen |
| `MessageApproval.OnMessageApproved` | src/main.c:244-291 | returned is the signature of the hash of the hash input for signing |

## Left out

- Screen flows and layouts (src/nimiq_ux_bagl.c, src/nimiq_ux_nbgl.c): user interface on top of an SDK; which entries are
  shown is modelled, their order and paging are not.
- `io_exchange`, `io_event`, the U2F timer, keep-alive, exceptions and `main`: of the main loop the processing of commands
  one after the other and the wipe after an error are modelled, for runs of a single instruction, so that the class byte and
  the choice of the handler are not part of this model.
- `handle_get_public_key`: a single branch around the key encoding that is modelled for the staker proof.
- Ed25519, key derivation, SHA-256 and BLAKE2b: parameters, assumed to succeed. A hash context is the sequence of bytes fed
  to it; using one that was wiped is modelled as a failure.
- Memory overlays: the members of the request union, of the prepare and confirm parts of the message context and of the
  parsed transaction are separate fields.
- Debug output and error macros: an error is an early return of its code.
- Multi-byte varints, signature proofs with a merkle path and validator transactions: not supported by the code either.
- unit-tests: they do not compile with the current sources.
- `snprintf` is modelled by what it prints; that the plural letter of "block" may be a terminator is taken to end the text
  there.
- TransactionApproval.SignedParsesAsApproved: excludes a created proof of zeros only, which would be taken for an empty one.
- TransactionApproval.OnTransactionApproved: is about approving what was put up for review last, with no further command in
  between.
