/**
 `handle_sign_message` and what the main loop does about errors: a message of any length is hashed chunk by chunk, alone
 and behind a prefix, and short messages are kept for display. A hash context is the sequence of bytes fed to it.
 */
module SignMessage {
  import opened Arithmetic
  import opened Buffers
  import opened Cursors
  import opened DataField
  import opened Decimal
  import opened Machine
  import opened Protocol
  import opened Wire

  const MAX_PRINTABLE_MESSAGE_LENGTH := 160

  /** The length of what follows, and "Nimiq Signed Message:" with a line feed. */
  const MESSAGE_SIGNING_PREFIX: Bytes := [
    0x16, 0x4E, 0x69, 0x6D, 0x69, 0x71, 0x20, 0x53, 0x69, 0x67, 0x6E, 0x65, 0x64, 0x20,
    0x4D, 0x65, 0x73, 0x73, 0x61, 0x67, 0x65, 0x3A, 0x0A]

  /** The bytes of a string of ASCII characters. */
  function CharBytes(s: string): Bytes {
    if s == "" then [] else CharBytes(s[..|s| - 1]) + [s[|s| - 1] as int % 0x100]
  }

  /** What precedes a message that is announced to have `n` bytes when it is hashed for signing. */
  function FramePrefix(n: nat): Bytes {
    MESSAGE_SIGNING_PREFIX + CharBytes(Numeral(n))
  }

  /** What is hashed for signing a message. */
  function Frame(message: Bytes): Bytes {
    FramePrefix(|message|) + message
  }

  /**
   The context between two commands. `printable` is what was copied of a short message. The hash contexts can be used
   once they were initialised.
   */
  datatype Session = Session(
    path: seq<u32>, flags: u8, messageLength: u32, processed: u32, hashing: bool, plain: Bytes, prefixed: Bytes,
    printable: Bytes, isPrintableAscii: bool)
  {
    predicate IsShort() {
      messageLength <= MAX_PRINTABLE_MESSAGE_LENGTH
    }
  }

  /** The context after it was overwritten with zeros. */
  function Wiped(): Session {
    Session([], 0, 0, 0, false, [], [], [], false)
  }

  datatype Progress = Going(session: Session) | Stopped(sw: StatusWord)

  /** What the first chunk says about the message. */
  datatype Announced = Announced(path: seq<u32>, flags: u8, messageLength: u32)

  function TakeHeader(data: Bytes): Option<Taken<Announced>> {
    var path :- TakePath(data);
    var flags :- TakeU8(path.rest);
    var n :- TakeU32(flags.rest);
    Some(Taken(Announced(path.value, flags.value, n.value), n.rest))
  }

  function Begin(a: Announced): Session {
    Session(a.path, a.flags, a.messageLength, 0, true, [], FramePrefix(a.messageLength), [],
            a.messageLength <= MAX_PRINTABLE_MESSAGE_LENGTH)
  }

  /** Sums of type `unsigned long`, which has 32 bits on the device. */
  function Sum32(a: u32, b: u32): u32 {
    if a + b < 0x1_0000_0000 then a + b else a + b - 0x1_0000_0000
  }

  /** The context after more bytes of the message. */
  function Absorb(st: Session, data: Bytes): Progress
    requires |data| <= 0xFF
  {
    if data == [] then Going(st)
    else if Sum32(st.processed, |data|) > st.messageLength then Stopped(SwWrongDataLength)
    else if !st.hashing then Stopped(SwCryptographyFail)
    else
      Going(st.(processed := Sum32(st.processed, |data|), plain := st.plain + data, prefixed := st.prefixed + data,
                printable := if st.IsShort() then st.printable + data else st.printable,
                isPrintableAscii := st.isPrintableAscii && (st.IsShort() ==> Printable(data))))
  }

  function Receive(st: Session, p1: u8, data: Bytes): Progress
    requires |data| <= 0xFF
  {
    if p1 == P1_FIRST then
      var header := TakeHeader(data);
      if header.None? then Stopped(SwWrongDataLength)
      else
        HeaderRest(data);
        Absorb(Begin(header.value.value), header.value.rest)
    else Absorb(st, data)
  }

  lemma HeaderRest(data: Bytes)
    ensures TakeHeader(data).Some? ==> |TakeHeader(data).value.rest| <= |data|
  {
    if TakeHeader(data).Some? {
      PutTakenPath(data);
    }
  }

  /** The whole message has to have arrived with the last chunk. */
  function Finish(st: Session): Progress {
    if st.processed != st.messageLength then Stopped(SwWrongDataLength)
    else if !st.hashing then Stopped(SwCryptographyFail)
    else Going(st)
  }

  /** What the handler does with a chunk. */
  function Handle(st: Session, p1: u8, p2: u8, data: Bytes): Progress
    requires |data| <= 0xFF
  {
    if !ValidP1P2(p1, p2) then Stopped(SwWrongP1P2)
    else
      match Receive(st, p1, data)
      case Stopped(sw) => Stopped(sw)
      case Going(next) => if p2 == P2_MORE then Going(next) else Finish(next)
  }

  /** One iteration of the main loop. After any error the context is wiped. */
  function Step(st: Session, command: Command): (Session, Reply) {
    if command.Malformed? || |command.data| > 0xFF then (Wiped(), Reply(SwWrongDataLength, false))
    else
      match Handle(st, command.p1, command.p2, command.data)
      case Stopped(sw) => (Wiped(), Reply(sw, false))
      case Going(next) => (next, Reply(SwOk, command.p2 == P2_LAST))
  }

  lemma ErrorsWipe(st: Session, command: Command)
    ensures var (next, reply) := Step(st, command);
            reply.sw != SwOk ==> next == Wiped() && !reply.review
  {
  }

  // ---------------------------------------------------------------------------------------------------------------
  // The length check

  /** The check of the code, and what it is meant to be. */
  predicate CheckPasses(processed: u32, length: u8, messageLength: u32) {
    Sum32(processed, length) <= messageLength
  }

  /**
   The check says what it is meant to say at every point of every message exactly if the announced length is at most
   2^32 - 256. For longer ones the sum can wrap around.
   */
  lemma CheckExact(messageLength: u32)
    ensures (forall processed: u32, length: u8 :: processed <= messageLength ==>
               (CheckPasses(processed, length, messageLength) <==> processed + length <= messageLength))
       <==> messageLength <= 0x1_0000_0000 - 0x100
  {
    if messageLength > 0x1_0000_0000 - 0x100 {
      assert CheckPasses(messageLength, 0xFF, messageLength);
    }
  }

  // ---------------------------------------------------------------------------------------------------------------
  // Runs

  function Header(path: seq<u32>, flags: u8, n: u32): Bytes
    requires 1 <= |path| <= MAX_BIP32_PATH_LENGTH
  {
    PutPath(path) + ([flags] + PutU32(n))
  }

  /** The header byte by byte. */
  lemma HeaderAt(path: seq<u32>, flags: u8, n: u32)
    requires 1 <= |path| <= 10
    ensures var h := Header(path, flags, n);
            && |h| == 6 + 4 * |path| && h[0] == |path| && h[1 + 4 * |path|] == flags && U32At(h, 2 + 4 * |path|) == n
            && forall k :: 0 <= k < |path| ==> U32At(h, 1 + 4 * k) == path[k]
  {
    PathAt(path);
    NumberOfPut(n);
    var h := Header(path, flags, n);
    assert h[2 + 4 * |path|..] == PutU32(n);
    NumbersInside(h, 2 + 4 * |path|);
    forall k | 0 <= k < |path|
      ensures U32At(h, 1 + 4 * k) == path[k]
    {
      assert U32At(h, 1 + 4 * k) == U32At(PutPath(path), 1 + 4 * k);
    }
  }

  lemma HeaderLength(path: seq<u32>, flags: u8, n: u32)
    requires 1 <= |path| <= MAX_BIP32_PATH_LENGTH
    ensures |Header(path, flags, n)| == 4 * |path| + 6
  {
    EntriesLength(path);
  }

  /** The context after `m` of a message with the announced length `n`. */
  function Holding(path: seq<u32>, flags: u8, n: u32, m: Bytes): Session {
    Session(path, flags, n, |m| % 0x1_0000_0000, true, m, FramePrefix(n) + m,
            if n <= MAX_PRINTABLE_MESSAGE_LENGTH then m else [], n <= MAX_PRINTABLE_MESSAGE_LENGTH && Printable(m))
  }

  lemma Low32Sum(a: nat, b: u8)
    ensures Sum32(a % 0x1_0000_0000, b) == (a + b) % 0x1_0000_0000
  {
    var q, r := a / 0x1_0000_0000, a % 0x1_0000_0000;
    if r + b < 0x1_0000_0000 {
      DivModUnique(a + b, 0x1_0000_0000, q, r + b);
    } else {
      DivModUnique(a + b, 0x1_0000_0000, q + 1, r + b - 0x1_0000_0000);
    }
  }

  lemma PrintableConcat(a: Bytes, b: Bytes)
    ensures Printable(a + b) <==> Printable(a) && Printable(b)
  {
    assert forall i :: 0 <= i < |a| ==> (a + b)[i] == a[i];
    assert forall i :: 0 <= i < |b| ==> (a + b)[|a| + i] == b[i];
  }

  /** More bytes are added to what is there unless the check fails. */
  lemma AbsorbMore(path: seq<u32>, flags: u8, n: u32, m: Bytes, part: Bytes)
    requires |part| <= 0xFF
    ensures Absorb(Holding(path, flags, n, m), part)
            == if part != [] && !CheckPasses(|m| % 0x1_0000_0000, |part|, n) then Stopped(SwWrongDataLength)
               else Going(Holding(path, flags, n, m + part))
  {
    Low32Sum(|m|, |part|);
    PrintableConcat(m, part);
    assert FramePrefix(n) + (m + part) == FramePrefix(n) + m + part;
    if part == [] {
      assert m + part == m;
    }
  }

  /** The first command sets up the context. */
  lemma ReceiveFirst(st: Session, path: seq<u32>, flags: u8, n: u32, part: Bytes)
    requires 1 <= |path| <= MAX_BIP32_PATH_LENGTH && |Header(path, flags, n)| + |part| <= 0xFF
    ensures Receive(st, P1_FIRST, Header(path, flags, n) + part) == Absorb(Holding(path, flags, n, []), part)
  {
    assert Header(path, flags, n) + part == PutPath(path) + ([flags] + (PutU32(n) + part));
    TakePutPath(path, [flags] + (PutU32(n) + part));
    TakePutU8(flags, PutU32(n) + part);
    TakePutU32(n, part);
    assert FramePrefix(n) + [] == FramePrefix(n);
  }

  /** What a part leads to that arrives behind others. */
  lemma ReceivePart(st: Session, path: seq<u32>, flags: u8, n: u32, parts: seq<Bytes>, part: Bytes, before: Session,
                    p2: u8)
    requires 1 <= |path| <= MAX_BIP32_PATH_LENGTH && Sendable(Header(path, flags, n), parts + [part])
    requires parts == [] || before == Holding(path, flags, n, Concat(parts))
    requires parts == [] ==> before == st
    ensures var c := PartCommand(Header(path, flags, n), parts == [], p2, part);
            |c.data| <= 0xFF && Receive(before, c.p1, c.data) == Absorb(Holding(path, flags, n, Concat(parts)), part)
  {
    assert (parts + [part])[|parts|] == part;
    if parts == [] {
      ReceiveFirst(st, path, flags, n, part);
    }
  }

  /** The step for a part, by whether it is the last one. */
  lemma PartStep(st: Session, path: seq<u32>, flags: u8, n: u32, parts: seq<Bytes>, part: Bytes, before: Session,
                 p2: u8)
    requires 1 <= |path| <= MAX_BIP32_PATH_LENGTH && Sendable(Header(path, flags, n), parts + [part])
    requires parts == [] || before == Holding(path, flags, n, Concat(parts))
    requires parts == [] ==> before == st
    requires (p2 == P2_MORE || p2 == P2_LAST) && |part| <= 0xFF
    ensures Step(before, PartCommand(Header(path, flags, n), parts == [], p2, part))
            == if part != [] && !CheckPasses(|Concat(parts)| % 0x1_0000_0000, |part|, n) then
                 (Wiped(), Reply(SwWrongDataLength, false))
               else if p2 == P2_LAST && |Concat(parts) + part| % 0x1_0000_0000 != n then
                 (Wiped(), Reply(SwWrongDataLength, false))
               else (Holding(path, flags, n, Concat(parts) + part), Reply(SwOk, p2 == P2_LAST))
  {
    ReceivePart(st, path, flags, n, parts, part, before, p2);
    AbsorbMore(path, flags, n, Concat(parts), part);
  }

  /** The sum in the check does not wrap around at any point of a run. */
  predicate NoWrap(n: u32, length: nat) {
    n <= 0x1_0000_0000 - 0x100 || length < 0x1_0000_0000
  }

  lemma CheckMeans(n: u32, length: nat, part: u8)
    requires length <= n && NoWrap(n, length + part)
    ensures CheckPasses(length % 0x1_0000_0000, part, n) <==> length + part <= n
  {
  }

  /** What an opening leads to. */
  ghost predicate Absorbed(st: Session, path: seq<u32>, flags: u8, n: u32, parts: seq<Bytes>)
    requires 1 <= |path| <= MAX_BIP32_PATH_LENGTH
  {
    var run := Opening(Header(path, flags, n), parts);
    && (AllAnswered(Step, st, run) ==>
          After(Step, st, run) == if parts == [] then st else Holding(path, flags, n, Concat(parts)))
    && (NoWrap(n, |Concat(parts)|) ==> (AllAnswered(Step, st, run) <==> |Concat(parts)| <= n))
  }

  /**
   As long as there is no error the context holds all of the parts one behind the other; and there is none exactly as
   long as they are not longer than announced.
   */
  lemma {:induction false} OpeningAbsorbs(st: Session, path: seq<u32>, flags: u8, n: u32, parts: seq<Bytes>)
    requires 1 <= |path| <= MAX_BIP32_PATH_LENGTH && Sendable(Header(path, flags, n), parts)
    ensures Absorbed(st, path, flags, n, parts)
  {
    if parts != [] {
      var init, part := parts[..|parts| - 1], parts[|parts| - 1];
      assert init + [part] == parts && |part| <= 0xFF;
      OpeningAbsorbs(st, path, flags, n, init);
      NextAbsorbed(st, path, flags, n, init, part);
    }
  }

  lemma NextAbsorbed(st: Session, path: seq<u32>, flags: u8, n: u32, init: seq<Bytes>, part: Bytes)
    requires 1 <= |path| <= MAX_BIP32_PATH_LENGTH && Sendable(Header(path, flags, n), init + [part]) && |part| <= 0xFF
    requires Absorbed(st, path, flags, n, init)
    ensures Absorbed(st, path, flags, n, init + [part])
  {
    hide Step, Holding, CheckPasses, Opening, Concat, Header, PartCommand, AllAnswered, After, LastReply;
    var opening := Opening(Header(path, flags, n), init);
    OpeningSnoc(Header(path, flags, n), init, part);
    ConcatSnoc(init, part);
    RunSnoc(Step, st, opening, PartCommand(Header(path, flags, n), init == [], P2_MORE, part));
    if AllAnswered(Step, st, opening) {
      PartStep(st, path, flags, n, init, part, After(Step, st, opening), P2_MORE);
      if NoWrap(n, |Concat(init)| + |part|) && |Concat(init)| <= n {
        CheckMeans(n, |Concat(init)|, |part|);
      }
    }
  }

  /** The last step of a request whose opening was answered with success. */
  lemma LastStep(st: Session, path: seq<u32>, flags: u8, n: u32, init: seq<Bytes>, part: Bytes, before: Session)
    requires 1 <= |path| <= MAX_BIP32_PATH_LENGTH && Sendable(Header(path, flags, n), init + [part]) && |part| <= 0xFF
    requires before == if init == [] then st else Holding(path, flags, n, Concat(init))
    ensures var (next, reply) := Step(before, PartCommand(Header(path, flags, n), init == [], P2_LAST, part));
            && (reply.sw == SwOk <==> LastChecks(n, |Concat(init)|, |part|))
            && (reply.sw == SwOk ==> reply.review && next == Holding(path, flags, n, Concat(init) + part))
  {
    PartStep(st, path, flags, n, init, part, before, P2_LAST);
  }

  /** A request is answered with success if its opening is and the checks of the last chunk pass. */
  lemma RequestFinishes(st: Session, path: seq<u32>, flags: u8, n: u32, parts: seq<Bytes>)
    requires 1 <= |path| <= MAX_BIP32_PATH_LENGTH && Sendable(Header(path, flags, n), parts)
    requires parts != [] && |parts[|parts| - 1]| <= 0xFF
    ensures var run, opening := Request(Header(path, flags, n), parts),
                                Opening(Header(path, flags, n), parts[..|parts| - 1]);
            && (AllAnswered(Step, st, run) <==>
                  && AllAnswered(Step, st, opening)
                  && LastChecks(n, |Concat(parts[..|parts| - 1])|, |parts[|parts| - 1]|))
            && (AllAnswered(Step, st, run) ==>
                  && LastReply(Step, st, run) == Reply(SwOk, true)
                  && After(Step, st, run) == Holding(path, flags, n, Concat(parts)))
  {
    hide Step, Holding, LastChecks;
    var init, part := parts[..|parts| - 1], parts[|parts| - 1];
    assert init + [part] == parts;
    var opening := Opening(Header(path, flags, n), init);
    OpeningAbsorbs(st, path, flags, n, init);
    RunSnoc(Step, st, opening, PartCommand(Header(path, flags, n), |parts| == 1, P2_LAST, part));
    if AllAnswered(Step, st, opening) {
      LastStep(st, path, flags, n, init, part, After(Step, st, opening));
    }
  }

  /** The checks for a last chunk of `part` bytes behind others. */
  predicate LastChecks(n: u32, length: nat, part: u8) {
    && (part == 0 || CheckPasses(length % 0x1_0000_0000, part, n))
    && (length + part) % 0x1_0000_0000 == n
  }

  lemma LastChecksMean(n: u32, length: nat, part: u8)
    requires length <= n && NoWrap(n, length + part)
    ensures LastChecks(n, length, part) <==> length + part == n
  {
  }

  /**
   It does not matter how a message is split into chunks. If all chunks are answered with success, then both hash inputs
   are as for the message as a whole, and a short message was copied and examined as a whole. This is so exactly if the
   message has the announced length, as long as no sum wraps around.
   */
  lemma ChunkingTransparent(st: Session, path: seq<u32>, flags: u8, n: u32, parts: seq<Bytes>)
    requires 1 <= |path| <= MAX_BIP32_PATH_LENGTH && Sendable(Header(path, flags, n), parts) && parts != []
    ensures var run, message := Request(Header(path, flags, n), parts), Concat(parts);
            && (AllAnswered(Step, st, run) ==>
                  && LastReply(Step, st, run) == Reply(SwOk, true)
                  && After(Step, st, run) == Holding(path, flags, n, message) && |message| % 0x1_0000_0000 == n)
            && (NoWrap(n, |message|) ==> (AllAnswered(Step, st, run) <==> |message| == n))
  {
    hide Step, Holding;
    var init, part := parts[..|parts| - 1], parts[|parts| - 1];
    assert init + [part] == parts && |part| <= 0xFF;
    assert |Concat(parts)| == |Concat(init)| + |part|;
    RequestFinishes(st, path, flags, n, parts);
    OpeningAbsorbs(st, path, flags, n, init);
    if |Concat(init)| <= n && NoWrap(n, |Concat(parts)|) {
      LastChecksMean(n, |Concat(init)|, |part|);
    }
  }

  // ---------------------------------------------------------------------------------------------------------------
  // What is asked of the user

  /** The result of SHA-256, which is a parameter. */
  type Hash = b: Bytes | |b| == 32 witness seq(32, _ => 0)

  function ZeroHash(): Hash {
    seq(32, _ => 0)
  }

  datatype DisplayType = ASCII | HEX | HASH

  predicate PrefersHex(flags: u8) {
    flags % 2 == 1
  }

  predicate PrefersHash(flags: u8) {
    flags / 2 % 2 == 1
  }

  function DisplayTypeFor(st: Session): DisplayType {
    if st.isPrintableAscii && !PrefersHex(st.flags) && !PrefersHash(st.flags) then ASCII
    else if st.IsShort() && !PrefersHash(st.flags) then HEX
    else HASH
  }

  // ---------------------------------------------------------------------------------------------------------------
  // The context as the device keeps it

  /** Two characters for each byte of a short message, and a terminator. */
  const PRINTED_MESSAGE_BUFFER_LENGTH := 2 * MAX_PRINTABLE_MESSAGE_LENGTH + 1

  class MessageContext {
    var bip32Path: seq<u32>
    var flags: u8
    var messageLength: u32
    var processedMessageLength: u32
    var hashing: bool
    var messageHashContext: Bytes
    var prefixedMessageHashContext: Bytes
    const printableMessage: array<u8>
    var isPrintableAscii: bool
    // for the confirmation
    var displayType: DisplayType
    var messageHash: Hash
    var prefixedMessageHash: Hash
    var printedMessageLabel: string
    const printedMessage: array<char>

    ghost predicate Valid()
      reads this
    {
      && printableMessage.Length == MAX_PRINTABLE_MESSAGE_LENGTH
      && printedMessage.Length == PRINTED_MESSAGE_BUFFER_LENGTH
      && (messageLength <= MAX_PRINTABLE_MESSAGE_LENGTH ==> processedMessageLength <= messageLength)
    }

    ghost function Current(): Session
      requires Valid()
      reads this, printableMessage
    {
      Session(bip32Path, flags, messageLength, processedMessageLength, hashing,
              messageHashContext, prefixedMessageHashContext,
              if messageLength <= MAX_PRINTABLE_MESSAGE_LENGTH then printableMessage[..processedMessageLength] else [],
              isPrintableAscii)
    }

    constructor ()
      ensures Valid() && Current() == Wiped() && fresh(printableMessage) && fresh(printedMessage)
    {
      bip32Path, flags, messageLength, processedMessageLength, hashing := [], 0, 0, 0, false;
      messageHashContext, prefixedMessageHashContext, isPrintableAscii := [], [], false;
      displayType, printedMessageLabel := ASCII, "";
      messageHash, prefixedMessageHash := ZeroHash(), ZeroHash();
      printableMessage := new u8[MAX_PRINTABLE_MESSAGE_LENGTH];
      printedMessage := new char[PRINTED_MESSAGE_BUFFER_LENGTH];
      new;
      assert printableMessage[..0] == [];
    }

    /** `memset(&ctx, 0, sizeof(ctx))` */
    method Wipe()
      requires Valid()
      modifies this, printableMessage, printedMessage
      ensures Valid() && Current() == Wiped()
    {
      bip32Path, flags, messageLength, processedMessageLength, hashing := [], 0, 0, 0, false;
      messageHashContext, prefixedMessageHashContext, isPrintableAscii := [], [], false;
      displayType, printedMessageLabel := ASCII, "";
      messageHash, prefixedMessageHash := ZeroHash(), ZeroHash();
      Fill(printableMessage, 0);
      Fill(printedMessage, '\0');
      assert printableMessage[..0] == [];
    }

    /** The header of the first chunk. */
    method BeginMessage(cursor: Cursor) returns (ok: bool)
      requires Valid() && cursor.Valid()
      modifies this, cursor
      ensures Valid() && cursor.Valid()
      ensures ok <==> TakeHeader(old(cursor.Rest())).Some?
      ensures ok ==> var t := TakeHeader(old(cursor.Rest())).value;
                     Current() == Begin(t.value) && cursor.Rest() == t.rest
    {
      var header;
      ok, header := ReadHeader(cursor);
      if ok {
        bip32Path, flags, messageLength := header.path, header.flags, header.messageLength;
        processedMessageLength := 0;
        isPrintableAscii := messageLength <= MAX_PRINTABLE_MESSAGE_LENGTH;
        InitHashes();
      }
    }

    static method ReadHeader(cursor: Cursor) returns (ok: bool, header: Announced)
      requires cursor.Valid()
      modifies cursor
      ensures cursor.Valid()
      ensures ok <==> TakeHeader(old(cursor.Rest())).Some?
      ensures ok ==> TakeHeader(old(cursor.Rest())) == Some(Taken(header, cursor.Rest()))
    {
      var path, byte: u8, n: u32 := [], 0, 0;
      header := Announced([], 0, 0);
      ok, path := cursor.ReadBip32Path();
      if !ok {
        return;
      }
      ok, byte := cursor.ReadU8();
      if !ok {
        return;
      }
      ok, n := cursor.ReadU32();
      if !ok {
        return;
      }
      header := Announced(path, byte, n);
    }

    /** Starts both hashes; the one for signing with the prefix and the length of the message. */
    method InitHashes()
      requires Valid() && processedMessageLength == 0
      modifies this`hashing, this`messageHashContext, this`prefixedMessageHashContext
      ensures Valid()
      ensures Current() == old(Current()).(hashing := true, plain := [], prefixed := FramePrefix(messageLength))
      ensures Current().printable == []
    {
      hashing, messageHashContext := true, [];
      prefixedMessageHashContext := MESSAGE_SIGNING_PREFIX;
      prefixedMessageHashContext := prefixedMessageHashContext + CharBytes(Numeral(messageLength));
    }

    /** More bytes of the message. */
    method AbsorbChunk(data: Bytes) returns (sw: StatusWord)
      requires Valid() && |data| <= 0xFF
      modifies this, printableMessage
      ensures Valid()
      ensures match Absorb(old(Current()), data)
              case Stopped(stopped) => sw == stopped != SwOk
              case Going(next) => sw == SwOk && Current() == next
    {
      if |data| == 0 {
        return SwOk;
      }
      if Sum32(processedMessageLength, |data|) > messageLength {
        return SwWrongDataLength;
      }
      if messageLength <= MAX_PRINTABLE_MESSAGE_LENGTH {
        Store(printableMessage, processedMessageLength, data);
        var printable := IsPrintableAscii(data);
        isPrintableAscii := isPrintableAscii && printable;
      }
      if !hashing {
        return SwCryptographyFail;
      }
      messageHashContext := messageHashContext + data;
      prefixedMessageHashContext := prefixedMessageHashContext + data;
      processedMessageLength := Sum32(processedMessageLength, |data|);
      return SwOk;
    }

    /** The header, if there is one to come, and bytes of the message. */
    method ReceiveChunk(p1: u8, memory: array<u8>, data: nat, length: u8) returns (sw: StatusWord)
      requires Valid() && data + length <= memory.Length && memory != printableMessage
      modifies this, printableMessage
      ensures Valid()
      ensures match Receive(old(Current()), p1, memory[data..data + length])
              case Stopped(stopped) => sw == stopped != SwOk
              case Going(next) => sw == SwOk && Current() == next
    {
      var cursor := new Cursor(memory, At(data), length);
      assert cursor.Rest() == memory[data..data + length];
      hide TakeHeader, Absorb, Slice;
      HeaderRest(cursor.Rest());
      if p1 == P1_FIRST {
        var ok := BeginMessage(cursor);
        if !ok {
          return SwWrongDataLength;
        }
      }
      sw := AbsorbChunk(Slice(memory, cursor.buffer, cursor.length));
    }

    /** Both hashes and the question to the user, if the whole message has arrived. */
    method FinishMessage(sha256: Bytes -> Hash) returns (sw: StatusWord)
      requires Valid()
      modifies this`messageHash, this`prefixedMessageHash, this`displayType
      ensures Valid()
      ensures match Finish(old(Current()))
              case Stopped(stopped) => sw == stopped != SwOk
              case Going(next) => sw == SwOk && Current() == next
      ensures sw == SwOk ==> Confirms(sha256)
    {
      if processedMessageLength != messageLength {
        return SwWrongDataLength;
      }
      if !hashing {
        return SwCryptographyFail;
      }
      messageHash, prefixedMessageHash := sha256(messageHashContext), sha256(prefixedMessageHashContext);
      displayType := if isPrintableAscii && !PrefersHex(flags) && !PrefersHash(flags) then ASCII
                     else if messageLength <= MAX_PRINTABLE_MESSAGE_LENGTH && !PrefersHash(flags) then HEX
                     else HASH;
      return SwOk;
    }

    /** The members for the confirmation are those for the received message. */
    ghost predicate Confirms(sha256: Bytes -> Hash)
      requires Valid()
      reads this, printableMessage
    {
      && messageHash == sha256(Current().plain) && prefixedMessageHash == sha256(Current().prefixed)
      && displayType == DisplayTypeFor(Current())
    }

    method HandleSignMessage(p1: u8, p2: u8, memory: array<u8>, data: nat, length: u8, sha256: Bytes -> Hash)
      returns (sw: StatusWord, startAsyncReply: bool)
      requires Valid() && data + length <= memory.Length && memory != printableMessage
      modifies this, printableMessage
      ensures Valid()
      ensures match Handle(old(Current()), p1, p2, memory[data..data + length])
              case Stopped(stopped) => sw == stopped != SwOk && !startAsyncReply
              case Going(next) => sw == SwOk && Current() == next && startAsyncReply == (p2 == P2_LAST)
      ensures startAsyncReply ==> Confirms(sha256)
    {
      if (p1 != P1_FIRST && p1 != P1_MORE) || (p2 != P2_LAST && p2 != P2_MORE) {
        return SwWrongP1P2, false;
      }
      sw := ReceiveChunk(p1, memory, data, length);
      if sw != SwOk {
        return sw, false;
      }
      if p2 == P2_MORE {
        return SwOk, false;
      }
      sw := FinishMessage(sha256);
      startAsyncReply := sw == SwOk;
    }

    /** Hands a command on to the handler unless its length is not the announced one. */
    method HandleCommand(apdu: array<u8>, length: u16, sha256: Bytes -> Hash)
      returns (sw: StatusWord, startAsyncReply: bool)
      requires Valid() && apdu != printableMessage && OFFSET_CDATA <= apdu.Length && length <= apdu.Length
      modifies this, printableMessage
      ensures Valid()
      ensures var (next, reply) := Step(old(Current()), CommandOf(apdu[..], length));
              sw == reply.sw && startAsyncReply == reply.review && (sw == SwOk ==> Current() == next)
      ensures startAsyncReply ==> Confirms(sha256)
    {
      if length < OFFSET_LC + 1 || length != apdu[OFFSET_LC] + OFFSET_CDATA {
        return SwWrongDataLength, false;
      }
      assert CommandOf(apdu[..], length)
          == Chunk(apdu[OFFSET_P1], apdu[OFFSET_P2], apdu[OFFSET_CDATA..OFFSET_CDATA + apdu[OFFSET_LC]]);
      sw, startAsyncReply := HandleSignMessage(apdu[OFFSET_P1], apdu[OFFSET_P2], apdu, OFFSET_CDATA,
                                               apdu[OFFSET_LC], sha256);
    }

    /** An iteration of the main loop for a command, which is for this handler unless it is malformed. */
    method ProcessCommand(apdu: array<u8>, length: u16, sha256: Bytes -> Hash)
      returns (sw: StatusWord, startAsyncReply: bool)
      requires Valid() && apdu != printableMessage && OFFSET_CDATA <= apdu.Length && length <= apdu.Length
      modifies this, printableMessage, printedMessage
      ensures Valid()
      ensures (Current(), Reply(sw, startAsyncReply)) == Step(old(Current()), CommandOf(apdu[..], length))
      ensures startAsyncReply ==> Confirms(sha256)
      ensures sw == SwOk ==> printedMessage[..] == old(printedMessage[..])
    {
      ErrorsWipe(Current(), CommandOf(apdu[..], length));
      sw, startAsyncReply := HandleCommand(apdu, length, sha256);
      if sw != SwOk {
        Wipe();
        startAsyncReply := false;
      }
    }
  }
}
