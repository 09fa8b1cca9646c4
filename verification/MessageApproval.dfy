/**
 What is signed for a message, and what is displayed of it: `on_message_approved` and
 nimiq_ux_utils_message_signing.c.
 */
module MessageApproval {
  import opened Buffers
  import opened DataField
  import opened Decimal
  import opened Hex
  import opened Machine
  import opened ParsedTransaction
  import opened Protocol
  import opened SignMessage
  import Transaction
  import opened Wire

  // ---------------------------------------------------------------------------------------------------------------
  // The frame

  /** A string of ASCII characters is hashed as the codes of its characters. */
  lemma {:induction false} CharBytesAt(s: string)
    requires forall i :: 0 <= i < |s| ==> s[i] as int < 0x80
    ensures |CharBytes(s)| == |s|
    ensures forall i :: 0 <= i < |s| ==> CharBytes(s)[i] == s[i] as int
  {
    if s != "" {
      CharBytesAt(s[..|s| - 1]);
    }
  }

  lemma {:induction false} CharBytesLength(s: string)
    ensures |CharBytes(s)| == |s|
  {
    if s != "" {
      CharBytesLength(s[..|s| - 1]);
    }
  }

  /** The number that the character codes of decimal digits denote. */
  function DecimalOf(codes: Bytes): int {
    if codes == [] then 0
    else
      var last: int := codes[|codes| - 1];
      10 * DecimalOf(codes[..|codes| - 1]) + (last - 0x30)
  }

  lemma {:induction false} DecimalOfDigits(s: string)
    requires AllDigits(s)
    ensures DecimalOf(CharBytes(s)) == Value(s)
  {
    if s != "" {
      DecimalOfDigits(s[..|s| - 1]);
      assert CharBytes(s)[..|CharBytes(s)| - 1] == CharBytes(s[..|s| - 1]);
    }
  }

  /** The length of what follows, the text and a line feed. */
  predicate StartsWithText(bytes: Bytes) {
    && |bytes| >= 23 && bytes[0] == 22 && bytes[22] == 0x0A
    && forall i :: 0 <= i < 21 ==> bytes[1 + i] == "Nimiq Signed Message:"[i] as int
  }

  /** A length in decimal digits, without superfluous zeros, and the message. */
  predicate EndsWithMessage(bytes: Bytes, n: nat, message: Bytes) {
    var digits := |bytes| - 23 - |message|;
    && digits >= 1
    && (forall i :: 23 <= i < 23 + digits ==> 0x30 <= bytes[i] <= 0x39)
    && (digits > 1 ==> bytes[23] != 0x30)
    && DecimalOf(bytes[23..23 + digits]) == n
    && bytes[23 + digits..] == message
  }

  /** Byte by byte: the text, the length and the message. */
  predicate Framed(bytes: Bytes, n: nat, message: Bytes) {
    StartsWithText(bytes) && EndsWithMessage(bytes, n, message)
  }

  /** The digits denote one number. */
  lemma OneLength(bytes: Bytes, m: nat, n: nat, message: Bytes)
    requires Framed(bytes, m, message)
    ensures Framed(bytes, n, message) <==> m == n
  {
    hide StartsWithText;
  }

  /** What is hashed for signing has this form. */
  lemma PrefixFramed(n: nat, message: Bytes)
    ensures Framed(FramePrefix(n) + message, n, message)
  {
    hide StartsWithText, EndsWithMessage;
    var digits, bytes := CharBytes(Numeral(n)), FramePrefix(n) + message;
    PrefixIsText();
    TextInFront(MESSAGE_SIGNING_PREFIX, digits + message);
    BehindText(MESSAGE_SIGNING_PREFIX, n, message);
    assert bytes == MESSAGE_SIGNING_PREFIX + (digits + message);
  }

  lemma PrefixIsText()
    ensures |MESSAGE_SIGNING_PREFIX| == 23 && StartsWithText(MESSAGE_SIGNING_PREFIX)
  {
  }

  lemma TextInFront(text: Bytes, rest: Bytes)
    requires |text| == 23 && StartsWithText(text)
    ensures StartsWithText(text + rest)
  {
    assert forall i :: 0 <= i < 23 ==> (text + rest)[i] == text[i];
  }

  lemma BehindText(text: Bytes, n: nat, message: Bytes)
    requires |text| == 23
    ensures EndsWithMessage(text + (CharBytes(Numeral(n)) + message), n, message)
  {
    hide Numeral, CharBytes, DecimalOf;
    var digits := CharBytes(Numeral(n));
    var bytes := text + (digits + message);
    NumeralRoundTrip(n);
    CharBytesAt(Numeral(n));
    DecimalOfDigits(Numeral(n));
    assert bytes[23..23 + |digits|] == digits;
    assert bytes[23 + |digits|..] == message;
    assert forall i :: 23 <= i < 23 + |digits| ==> bytes[i] == digits[i - 23];
  }

  /** The length of a frame tells the length of the message, as both parts of the sum grow with it. */
  lemma FrameLength(a: Bytes, b: Bytes)
    ensures |Frame(a)| == |MESSAGE_SIGNING_PREFIX| + |Numeral(|a|)| + |a|
    ensures |a| < |b| ==> |Frame(a)| < |Frame(b)|
  {
    CharBytesLength(Numeral(|a|));
    CharBytesLength(Numeral(|b|));
    if |a| < |b| {
      NumeralLengthMonotone(|a|, |b|);
    }
  }

  /** No two messages are framed in the same way. */
  lemma FrameInjective(a: Bytes, b: Bytes)
    ensures Frame(a) == Frame(b) <==> a == b
  {
    FrameLength(a, b);
    FrameLength(b, a);
    if Frame(a) == Frame(b) {
      var k := |FramePrefix(|a|)|;
      assert |a| == |b|;
      assert Frame(a)[k..] == a && Frame(b)[k..] == b;
    }
  }

  /** The hash that is signed for a message is never a transaction, which are all longer. */
  lemma HashIsNoTransaction(hash: Hash, version: u8, addressOf: PublicKey -> Address, init: Parsed)
    ensures Transaction.Outcome(version, hash, addressOf, init).Err?
  {
    if Transaction.Outcome(version, hash, addressOf, init).Ok? {
      var f, kind := Transaction.AcceptedSerialized(version, hash, addressOf, init);
      Transaction.SerializedLength(version, f);
    }
  }

  lemma {:induction false} CharBytesInjective(a: string, b: string)
    requires AllDigits(a) && AllDigits(b)
    ensures CharBytes(a) == CharBytes(b) <==> a == b
  {
    CharBytesLength(a);
    CharBytesLength(b);
    if a != "" && b != "" {
      var k := |a| - 1;
      CharBytesInjective(a[..k], b[..|b| - 1]);
      assert a == a[..k] + [a[k]] && b == b[..|b| - 1] + [b[|b| - 1]];
      assert CharBytes(a)[..k] == CharBytes(a[..k]) && CharBytes(b)[..|b| - 1] == CharBytes(b[..|b| - 1]);
    }
  }

  /** The prefixes of different lengths are different. */
  lemma FramePrefixInjective(m: nat, n: nat)
    ensures FramePrefix(m) == FramePrefix(n) <==> m == n
  {
    NumeralRoundTrip(m);
    NumeralRoundTrip(n);
    CharBytesInjective(Numeral(m), Numeral(n));
    var k := |MESSAGE_SIGNING_PREFIX|;
    assert FramePrefix(m)[k..] == CharBytes(Numeral(m)) && FramePrefix(n)[k..] == CharBytes(Numeral(n));
  }

  /** What stands before a message is its frame's prefix exactly if it is for the message's length. */
  lemma FramedBy(n: nat, message: Bytes)
    ensures FramePrefix(n) + message == Frame(message) <==> n == |message|
  {
    FramePrefixInjective(n, |message|);
    if FramePrefix(n) + message == Frame(message) {
      var k := |FramePrefix(n)|;
      assert k + |message| == |FramePrefix(|message|)| + |message|;
      assert (FramePrefix(n) + message)[..k] == FramePrefix(n) && Frame(message)[..k] == FramePrefix(|message|);
    }
  }

  /** What a context holds after a message of which the announced length are the low 32 bits of the length. */
  ghost predicate Holds(now: Session, path: seq<u32>, flags: u8, n: u32, message: Bytes) {
    && now.path == path && now.flags == flags && now.plain == message
    && Framed(now.prefixed, n, message)
    && (now.prefixed == Frame(message) <==> |message| < 0x1_0000_0000)
    && (Framed(now.prefixed, |message|, message) <==> |message| < 0x1_0000_0000)
    && now.printable == (if |message| <= 160 then message else [])
    && (now.isPrintableAscii <==> |message| <= 160 && forall i :: 0 <= i < |message| ==> 32 <= message[i] <= 126)
  }

  lemma HoldingHolds(path: seq<u32>, flags: u8, n: u32, message: Bytes)
    requires |message| % 0x1_0000_0000 == n && (n <= 0xFFFF_FF00 ==> |message| == n)
    ensures Holds(Holding(path, flags, n, message), path, flags, n, message)
  {
    hide Framed, FramePrefix, Frame;
    FramedBy(n, message);
    PrefixFramed(n, message);
    OneLength(FramePrefix(n) + message, n, |message|, message);
    Low32Whole(|message|);
  }

  lemma Low32Whole(x: nat)
    ensures x % 0x1_0000_0000 == x <==> x < 0x1_0000_0000
  {
  }

  /**
   After a request that was answered with success the hash inputs are those of the message as a whole, and a message of
   at most 160 bytes was copied and examined completely. What is hashed for signing is the message in a frame with the
   announced length; that is the frame of the message, with its own length, exactly if it has less than 2^32 bytes.
   */
  lemma FrameHeld(st: Session, path: seq<u32>, flags: u8, n: u32, parts: seq<Bytes>)
    requires 1 <= |path| <= MAX_BIP32_PATH_LENGTH && Sendable(Header(path, flags, n), parts) && parts != []
    requires AllAnswered(Step, st, Request(Header(path, flags, n), parts))
    ensures Holds(After(Step, st, Request(Header(path, flags, n), parts)), path, flags, n, Concat(parts))
  {
    hide Holds, Holding, Step, Header, Sendable;
    ChunkingTransparent(st, path, flags, n, parts);
    HoldingHolds(path, flags, n, Concat(parts));
  }

  /**
   The same for the bytes that a host sends: unless the 32-bit length check can wrap around they are answered exactly
   if the message has the announced length, and then the user is asked and what is to be signed is the message in its
   frame.
   */
  lemma HostFrameHeld(st: Session, path: seq<u32>, flags: u8, n: u32, parts: seq<Bytes>)
    requires 1 <= |path| <= 10 && Sendable(Header(path, flags, n), parts) && parts != []
    ensures var run, message := CommandsOf(HostRequest(0x0A, Header(path, flags, n), parts)), Concat(parts);
            && (n <= 0xFFFF_FF00 || |message| < 0x1_0000_0000 ==> (AllAnswered(Step, st, run) <==> |message| == n))
            && (AllAnswered(Step, st, run) ==>
                  LastReply(Step, st, run) == Reply(SwOk, true)
                  && Holds(After(Step, st, run), path, flags, n, message))
  {
    hide Holds, Step, Holding, Header, Sendable, HostRequest, Request, AllAnswered, After, LastReply, CommandsOf;
    HostRequestDecoded(0x0A, Header(path, flags, n), parts);
    ChunkingTransparent(st, path, flags, n, parts);
    if AllAnswered(Step, st, Request(Header(path, flags, n), parts)) {
      FrameHeld(st, path, flags, n, parts);
    }
  }

  // ---------------------------------------------------------------------------------------------------------------
  // The display

  /** A label and a text. */
  datatype Screen = Screen(title: string, text: string)

  function Title(displayType: DisplayType): string {
    match displayType
    case ASCII => "Message"
    case HEX => "Message Hex"
    case HASH => "Message Hash"
  }

  /** The text that is meant to be shown. */
  function OwnText(message: Bytes, hash: Hash, displayType: DisplayType): string {
    match displayType
    case ASCII => Text(message)
    case HEX => HexText(message)
    case HASH => HexText(hash)
  }

  /** What is shown if the buffer for the text read `before`; no digits are written for the empty message. */
  function ScreenOf(message: Bytes, hash: Hash, displayType: DisplayType, before: string): Screen {
    Screen(Title(displayType),
           if displayType == HEX && message == [] then before else OwnText(message, hash, displayType))
  }

  /** The screen is about this message unless it is the empty one in hexadecimal and something was shown before. */
  predicate Faithful(message: Bytes, displayType: DisplayType, before: string) {
    displayType != HEX || message != [] || before == ""
  }

  /** Exactly then the text that is meant to be shown is shown. */
  lemma OwnTextShown(message: Bytes, hash: Hash, displayType: DisplayType, before: string)
    ensures ScreenOf(message, hash, displayType, before).text == OwnText(message, hash, displayType)
       <==> Faithful(message, displayType, before)
  {
    assert HexText([]) == "";
  }

  /** A faithful screen tells the message as a whole, or its hash if that is displayed. */
  lemma ScreenDetermines(a: Bytes, b: Bytes, ha: Hash, hb: Hash, da: DisplayType, db: DisplayType,
                         ba: string, bb: string)
    requires Faithful(a, da, ba) && Faithful(b, db, bb)
    ensures ScreenOf(a, ha, da, ba) == ScreenOf(b, hb, db, bb) <==> da == db && if da == HASH then ha == hb else a == b
  {
    assert |"Message"| == 7 && |"Message Hex"| == 11 && |"Message Hash"| == 12;
    OwnTextShown(a, ha, da, ba);
    OwnTextShown(b, hb, db, bb);
    DataField.TextRoundTrip(a);
    DataField.TextRoundTrip(b);
    HexTextInjective(a, b);
    HexTextInjective(ha, hb);
  }

  /** The empty message in hexadecimal looks like any message whose digits were shown before. */
  lemma EmptyLooksLikeBefore(c: Bytes, hash: Hash, hc: Hash, before: string)
    ensures ScreenOf([], hash, HEX, HexText(c)) == ScreenOf(c, hc, HEX, before) <==> c != [] || before == ""
  {
    assert HexText([]) == "";
  }

  /** A received message that can be put up for confirmation. */
  ghost predicate Received(ctx: MessageContext)
    requires ctx.Valid()
    reads ctx, ctx.printableMessage
  {
    && ctx.processedMessageLength == ctx.messageLength
    && (ctx.displayType == ASCII ==> ctx.Current().IsShort() && Printable(ctx.Current().printable))
    && (ctx.displayType == HEX ==> ctx.Current().IsShort())
  }

  /** The two low bits of the flags, of which the second one has precedence. */
  lemma LowBits(flags: u8)
    ensures flags % 4 == 0 <==> !PrefersHex(flags) && !PrefersHash(flags)
    ensures flags % 4 < 2 <==> !PrefersHash(flags)
  {
  }

  /** Every received message can be put up for confirmation in the way that is chosen for it. */
  lemma ReceivedCanBeShown(ctx: MessageContext, sha256: Bytes -> Hash, path: seq<u32>, flags: u8, n: u32, m: Bytes)
    requires ctx.Valid() && ctx.Confirms(sha256)
    requires ctx.Current() == Holding(path, flags, n, m) && |m| % 0x1_0000_0000 == n
    ensures Received(ctx) && (ctx.displayType != HASH ==> ctx.Current().printable == m)
    ensures var text := n <= 160 && forall i :: 0 <= i < |m| ==> 32 <= m[i] <= 126;
            ctx.displayType == if text && flags % 4 == 0 then ASCII else if n <= 160 && flags % 4 < 2 then HEX else HASH
  {
    LowBits(flags);
    assert ctx.messageLength == ctx.Current().messageLength && ctx.processedMessageLength == ctx.Current().processed;
  }

  /**
   Fills the label and the printed message. No assertion fails, and a reader of the buffer sees the text; but for the
   hexadecimal form of the empty message nothing is written and the reader sees what was there before.
   */
  method PreparePrintedMessage(ctx: MessageContext)
    requires ctx.Valid() && Received(ctx)
    modifies ctx`printedMessageLabel, ctx.printedMessage
    ensures Screen(ctx.printedMessageLabel, CString(ctx.printedMessage[..]))
         == ScreenOf(ctx.Current().printable, ctx.messageHash, ctx.displayType, CString(old(ctx.printedMessage[..])))
  {
    match ctx.displayType
    case ASCII =>
      ctx.printedMessageLabel := "Message";
      var message := ctx.printableMessage[..ctx.messageLength];
      CopyText(message, ctx.printedMessage);
    case HEX =>
      ctx.printedMessageLabel := "Message Hex";
      var r := PrintHexText(ctx.printableMessage[..ctx.messageLength], ctx.printedMessage);
      assert r.Ok?; // the assertion in the source
    case HASH =>
      ctx.printedMessageLabel := "Message Hash";
      var r := PrintHexText(ctx.messageHash, ctx.printedMessage);
      assert r.Ok?; // the assertion in the source
  }

  /** A short message in a single command, with the wish for hexadecimal display. */
  function HexRequest(message: Bytes): Bytes
    requires |message| <= MAX_PRINTABLE_MESSAGE_LENGTH
  {
    Header([0], 1, |message|) + message
  }

  lemma HexRequestHandled(st: Session, message: Bytes)
    requires |message| <= MAX_PRINTABLE_MESSAGE_LENGTH
    ensures |HexRequest(message)| <= 0xFF
    ensures Handle(st, P1_FIRST, P2_LAST, HexRequest(message)) == Going(Holding([0], 1, |message|, message))
  {
    var n := |message|;
    HeaderLength([0], 1, n);
    ReceivePart(st, [0], 1, n, [], message, st, P2_LAST);
    AbsorbMore([0], 1, n, [], message);
    assert Concat([]) == [] && [] + message == message;
  }

  /** Receives a short message in a single command. */
  method ReceiveHexRequest(ctx: MessageContext, message: Bytes, sha256: Bytes -> Hash)
    requires ctx.Valid() && |message| <= MAX_PRINTABLE_MESSAGE_LENGTH
    modifies ctx, ctx.printableMessage
    ensures ctx.Valid() && ctx.Current() == Holding([0], 1, |message|, message) && ctx.Confirms(sha256)
  {
    hide HexRequest, Holding, Handle;
    HexRequestHandled(ctx.Current(), message);
    var data := HexRequest(message);
    var memory := new u8[|data|](i requires 0 <= i < |data| => data[i]);
    assert memory[0..0 + |data|] == data;
    assert ctx.Current() == old(ctx.Current());
    var sw, startAsyncReply := ctx.HandleSignMessage(P1_FIRST, P2_LAST, memory, 0, |data|, sha256);
  }

  /** Receives a short message in a single command and shows it in hexadecimal. */
  method ShowInHex(ctx: MessageContext, message: Bytes, sha256: Bytes -> Hash)
    requires ctx.Valid() && |message| <= MAX_PRINTABLE_MESSAGE_LENGTH
    modifies ctx, ctx.printableMessage, ctx.printedMessage
    ensures ctx.Valid() && ctx.Current() == Holding([0], 1, |message|, message) && ctx.displayType == HEX
    ensures Screen(ctx.printedMessageLabel, CString(ctx.printedMessage[..]))
         == ScreenOf(message, ctx.messageHash, HEX, CString(old(ctx.printedMessage[..])))
  {
    ReceiveHexRequest(ctx, message, sha256);
    ReceivedCanBeShown(ctx, sha256, [0], 1, |message|, message);
    PreparePrintedMessage(ctx);
  }

  /**
   The case in which the screen is not about the message: after any other short message the empty one looks like it.
   */
  method ShowEmptyAfter(ctx: MessageContext, other: Bytes, sha256: Bytes -> Hash)
    requires ctx.Valid() && 0 < |other| <= MAX_PRINTABLE_MESSAGE_LENGTH
    modifies ctx, ctx.printableMessage, ctx.printedMessage
    ensures ctx.Valid() && ctx.Current().plain == [] && ctx.displayType == HEX
    ensures ctx.printedMessageLabel == "Message Hex" && CString(ctx.printedMessage[..]) == HexText(other)
  {
    ShowInHex(ctx, other, sha256);
    ShowInHex(ctx, [], sha256);
  }

  // ---------------------------------------------------------------------------------------------------------------
  // The approval

  /** Returns the signature of the hash of the frame. */
  method OnMessageApproved(ctx: MessageContext, io: array<u8>, sign: Bytes -> Signature, sha256: Bytes -> Hash)
    returns (dataLength: u16)
    requires ctx.Valid() && ctx.Confirms(sha256) && io.Length >= 64 && io != ctx.printableMessage
    modifies io
    ensures dataLength == 64 && io[..dataLength] == sign(sha256(ctx.Current().prefixed))
    ensures ctx.Current() == old(ctx.Current())
  {
    Store(io, 0, sign(ctx.prefixedMessageHash));
    dataLength := 64;
  }
}
