/**
 `handle_sign_transaction` and what the main loop does about errors: a transaction is received in chunks, parsed and
 put up for approval.
 */
module SignTransaction {
  import opened Buffers
  import opened Cursors
  import opened Machine
  import opened ParsedTransaction
  import opened Protocol
  import opened Transaction
  import opened TransactionParser
  import opened Wire

  /** The context between two commands: the path of the key, the version, what was received and what is displayed. */
  datatype Session = Session(path: seq<u32>, version: u8, received: Bytes, parsed: Parsed)

  /** The context after it was overwritten with zeros. */
  function Wiped(): Session {
    Session([], 0, [], Zeroed())
  }

  /** The context after a chunk, if its content is in order and the transaction still fits into its buffer. */
  function Receive(st: Session, p1: u8, data: Bytes): Option<Session> {
    if p1 == P1_FIRST then
      var path :- TakePath(data);
      var version :- TakeU8(path.rest);
      if |version.rest| > MAX_RAW_TX then None
      else Some(Session(path.value, version.value, version.rest, st.parsed))
    else if |st.received| + |data| > MAX_RAW_TX then None
    else Some(st.(received := st.received + data))
  }

  /** What the last chunk leads to. */
  function Finish(st: Session, addressOf: PublicKey -> Address): (Session, Reply) {
    match Outcome(st.version, st.received, addressOf, Zeroed())
    case Ok(parsed) => (st.(parsed := parsed), Reply(SwOk, true))
    case Err(e) => (Wiped(), Reply(ErrorToSw(e), false))
  }

  /** One iteration of the main loop. After any error the context is wiped. */
  function Step(st: Session, command: Command, addressOf: PublicKey -> Address): (Session, Reply) {
    match command
    case Malformed => (Wiped(), Reply(SwWrongDataLength, false))
    case Chunk(p1, p2, data) =>
      if !ValidP1P2(p1, p2) then (Wiped(), Reply(SwWrongP1P2, false))
      else
        match Receive(st, p1, data)
        case None => (Wiped(), Reply(SwWrongDataLength, false))
        case Some(next) => if p2 == P2_MORE then (next, Reply(SwOk, false)) else Finish(next, addressOf)
  }

  lemma ErrorsWipe(st: Session, command: Command, addressOf: PublicKey -> Address)
    ensures var (next, reply) := Step(st, command, addressOf);
            reply.sw != SwOk ==> next == Wiped() && !reply.review
  {
  }

  /** The step of the protocol with a given way to derive addresses. */
  function Stepper(addressOf: PublicKey -> Address): (Session, Command) -> (Session, Reply) {
    (st, command) => Step(st, command, addressOf)
  }

  // ---------------------------------------------------------------------------------------------------------------
  // Runs

  /** Whatever is sent, no more is received than the buffer holds. */
  lemma {:induction false} ReceivedFits(st: Session, commands: seq<Command>, addressOf: PublicKey -> Address)
    requires |st.received| <= MAX_RAW_TX
    ensures |After(Stepper(addressOf), st, commands).received| <= MAX_RAW_TX
  {
    hide Outcome;
    if commands != [] {
      ReceivedFits(st, commands[..|commands| - 1], addressOf);
    }
  }

  /** What the first chunk starts with. */
  function Header(path: seq<u32>, version: u8): Bytes
    requires 1 <= |path| <= MAX_BIP32_PATH_LENGTH
  {
    PutPath(path) + [version]
  }

  /** The header byte by byte. */
  lemma HeaderAt(path: seq<u32>, version: u8)
    requires 1 <= |path| <= 10
    ensures var h := Header(path, version);
            && |h| == 2 + 4 * |path| && h[0] == |path| && h[1 + 4 * |path|] == version
            && forall k :: 0 <= k < |path| ==> U32At(h, 1 + 4 * k) == path[k]
  {
    PathAt(path);
    forall k | 0 <= k < |path|
      ensures U32At(Header(path, version), 1 + 4 * k) == path[k]
    {
      assert U32At(Header(path, version), 1 + 4 * k) == U32At(PutPath(path), 1 + 4 * k);
    }
  }

  /** The path and the version are read back from the first command. */
  lemma ReceiveFirst(st: Session, path: seq<u32>, version: u8, part: Bytes)
    requires 1 <= |path| <= MAX_BIP32_PATH_LENGTH
    ensures Receive(st, P1_FIRST, Header(path, version) + part)
            == if |part| > MAX_RAW_TX then None else Some(Session(path, version, part, st.parsed))
  {
    assert Header(path, version) + part == PutPath(path) + ([version] + part);
    TakePutPath(path, [version] + part);
    TakePutU8(version, part);
  }

  /** The context once a part has arrived behind the others. */
  lemma ReceivePart(st: Session, path: seq<u32>, version: u8, parts: seq<Bytes>, part: Bytes, before: Session, p2: u8)
    requires 1 <= |path| <= MAX_BIP32_PATH_LENGTH
    requires parts == [] || before == Session(path, version, Concat(parts), st.parsed)
    requires parts == [] ==> before == st
    ensures var c := PartCommand(Header(path, version), parts == [], p2, part);
            Receive(before, c.p1, c.data)
            == if |Concat(parts)| + |part| > MAX_RAW_TX then None
               else Some(Session(path, version, Concat(parts) + part, st.parsed))
  {
    if parts == [] {
      ReceiveFirst(st, path, version, part);
      assert Concat(parts) + part == part;
    }
  }

  /** The step for a part that is to be followed by more. */
  lemma MorePart(st: Session, path: seq<u32>, version: u8, parts: seq<Bytes>, part: Bytes, before: Session,
                 addressOf: PublicKey -> Address)
    requires 1 <= |path| <= MAX_BIP32_PATH_LENGTH
    requires parts == [] || before == Session(path, version, Concat(parts), st.parsed)
    requires parts == [] ==> before == st
    ensures Stepper(addressOf)(before, PartCommand(Header(path, version), parts == [], P2_MORE, part))
            == if |Concat(parts)| + |part| > MAX_RAW_TX then (Wiped(), Reply(SwWrongDataLength, false))
               else (Session(path, version, Concat(parts) + part, st.parsed), Reply(SwOk, false))
  {
    hide Outcome;
    ReceivePart(st, path, version, parts, part, before, P2_MORE);
  }

  /** The step for the last part. */
  lemma LastPart(st: Session, path: seq<u32>, version: u8, parts: seq<Bytes>, part: Bytes, before: Session,
                 addressOf: PublicKey -> Address)
    requires 1 <= |path| <= MAX_BIP32_PATH_LENGTH
    requires parts == [] || before == Session(path, version, Concat(parts), st.parsed)
    requires parts == [] ==> before == st
    ensures Stepper(addressOf)(before, PartCommand(Header(path, version), parts == [], P2_LAST, part))
            == if |Concat(parts)| + |part| > MAX_RAW_TX then (Wiped(), Reply(SwWrongDataLength, false))
               else Finish(Session(path, version, Concat(parts) + part, st.parsed), addressOf)
  {
    hide Outcome;
    ReceivePart(st, path, version, parts, part, before, P2_LAST);
  }

  /** Parts are put one behind the other, and there is no error exactly as long as they fit into the buffer. */
  lemma {:induction false} OpeningReceives(st: Session, path: seq<u32>, version: u8, parts: seq<Bytes>,
                                           addressOf: PublicKey -> Address)
    requires 1 <= |path| <= MAX_BIP32_PATH_LENGTH
    ensures AllAnswered(Stepper(addressOf), st, Opening(Header(path, version), parts))
       <==> |Concat(parts)| <= MAX_RAW_TX
    ensures |Concat(parts)| <= MAX_RAW_TX ==>
              After(Stepper(addressOf), st, Opening(Header(path, version), parts))
              == if parts == [] then st else Session(path, version, Concat(parts), st.parsed)
  {
    hide Outcome;
    if parts != [] {
      var init, part := parts[..|parts| - 1], parts[|parts| - 1];
      OpeningReceives(st, path, version, init, addressOf);
      var opening := Opening(Header(path, version), init);
      RunSnoc(Stepper(addressOf), st, opening, PartCommand(Header(path, version), |parts| == 1, P2_MORE, part));
      if |Concat(init)| <= MAX_RAW_TX {
        MorePart(st, path, version, init, part, After(Stepper(addressOf), st, opening), addressOf);
      }
    }
  }

  /** A request is answered with success if the whole of it fits and can be finished. */
  lemma RequestFinishes(st: Session, path: seq<u32>, version: u8, parts: seq<Bytes>, addressOf: PublicKey -> Address)
    requires 1 <= |path| <= MAX_BIP32_PATH_LENGTH && parts != []
    ensures var step, run := Stepper(addressOf), Request(Header(path, version), parts);
            if |Concat(parts)| > MAX_RAW_TX then !AllAnswered(step, st, run)
            else && (After(step, st, run), LastReply(step, st, run))
                    == Finish(Session(path, version, Concat(parts), st.parsed), addressOf)
                 && (AllAnswered(step, st, run) <==> LastReply(step, st, run).sw == SwOk)
  {
    hide Outcome;
    var init, part := parts[..|parts| - 1], parts[|parts| - 1];
    OpeningReceives(st, path, version, init, addressOf);
    var opening := Opening(Header(path, version), init);
    RunSnoc(Stepper(addressOf), st, opening, PartCommand(Header(path, version), |parts| == 1, P2_LAST, part));
    if |Concat(init)| <= MAX_RAW_TX {
      LastPart(st, path, version, init, part, After(Stepper(addressOf), st, opening), addressOf);
    }
  }

  /**
   It does not matter how a transaction is split into chunks: a request succeeds exactly if the whole transaction is one
   that is accepted, and then the context holds all of it and what it displays.
   */
  lemma ChunkingTransparent(st: Session, path: seq<u32>, version: u8, parts: seq<Bytes>,
                            addressOf: PublicKey -> Address)
    requires 1 <= |path| <= MAX_BIP32_PATH_LENGTH && parts != []
    ensures var step, run, s := Stepper(addressOf), Request(Header(path, version), parts), Concat(parts);
            var whole := Request(Header(path, version), [s]);
            && (AllAnswered(step, st, run) <==> Outcome(version, s, addressOf, Zeroed()).Ok?)
            && (AllAnswered(step, st, run) ==>
                  && LastReply(step, st, run) == Reply(SwOk, true)
                  && After(step, st, run) == Session(path, version, s, Outcome(version, s, addressOf, Zeroed()).value))
            && (|s| <= MAX_RAW_TX ==>
                  && After(step, st, run) == After(step, st, whole)
                  && LastReply(step, st, run) == LastReply(step, st, whole))
  {
    hide Outcome;
    var s := Concat(parts);
    RequestFinishes(st, path, version, parts, addressOf);
    RequestFinishes(st, path, version, [s], addressOf);
    ConcatOne(s);
    if Outcome(version, s, addressOf, Zeroed()).Ok? {
      AcceptedLength(version, s, addressOf, Zeroed());
    }
  }

  /** What is not accepted is answered with the status word of its error, and nothing is left of it. */
  lemma Refused(st: Session, path: seq<u32>, version: u8, parts: seq<Bytes>, addressOf: PublicKey -> Address)
    requires 1 <= |path| <= MAX_BIP32_PATH_LENGTH && parts != [] && |Concat(parts)| <= 188
    requires Outcome(version, Concat(parts), addressOf, Zeroed()).Err?
    ensures var run := Request(Header(path, version), parts);
            var e := Outcome(version, Concat(parts), addressOf, Zeroed()).error;
            && After(Stepper(addressOf), st, run) == Session([], 0, [], Zeroed())
            && LastReply(Stepper(addressOf), st, run)
               == Reply(if e == NotSupported then SwNotSupported
                        else if e == IncorrectData then SwIncorrectData
                        else SwWrongDataLength, false)
  {
    hide Outcome;
    RequestFinishes(st, path, version, parts, addressOf);
  }

  // ---------------------------------------------------------------------------------------------------------------
  // The context as the device keeps it

  class TransactionContext {
    var bip32Path: seq<u32>
    var transactionVersion: u8
    const rawTx: array<u8>
    var rawTxLength: u32
    const parsed: ParsedTx

    /** Holds between any two commands. */
    ghost predicate Valid()
      reads this
    {
      rawTx.Length == MAX_RAW_TX && rawTxLength <= MAX_RAW_TX
    }

    ghost function Current(): Session
      requires Valid()
      reads this, rawTx, parsed
    {
      Session(bip32Path, transactionVersion, rawTx[..rawTxLength], parsed.View())
    }

    constructor ()
      ensures Valid() && Current() == Wiped() && fresh(rawTx) && fresh(parsed)
    {
      bip32Path, transactionVersion, rawTxLength := [], 0, 0;
      rawTx := new u8[MAX_RAW_TX];
      parsed := new ParsedTx();
      new;
      assert rawTx[..0] == [];
    }

    /** `memset(&ctx, 0, sizeof(ctx))` */
    method Wipe()
      requires rawTx.Length == MAX_RAW_TX
      modifies this, rawTx, parsed
      ensures Valid() && Current() == Wiped() && forall i :: 0 <= i < MAX_RAW_TX ==> rawTx[i] == 0
    {
      bip32Path, transactionVersion, rawTxLength := [], 0, 0;
      Fill(rawTx, 0);
      parsed.Wipe();
      assert rawTx[..0] == [];
    }

    /** Copies the unread bytes behind what was received, if they fit. */
    method Copy(offset: u32, cursor: Cursor)
      requires rawTx.Length == MAX_RAW_TX && cursor.Valid() && cursor.memory != rawTx
      requires offset + |cursor.Rest()| <= MAX_RAW_TX
      modifies rawTx
      ensures rawTx[..offset + |cursor.Rest()|] == old(rawTx[..offset]) + cursor.Rest()
      ensures rawTx[offset + |cursor.Rest()|..] == old(rawTx[offset + |cursor.Rest()|..])
    {
      Store(rawTx, offset, Slice(cursor.memory, cursor.buffer, cursor.length));
    }

    /** The first chunk: the path, the version and the beginning of the transaction. */
    method ReceiveFirstChunk(cursor: Cursor) returns (ok: bool)
      requires Valid() && cursor.Valid() && cursor.memory != rawTx
      modifies this, rawTx, cursor
      ensures ok <==> Receive(old(Current()), P1_FIRST, old(cursor.Rest())).Some?
      ensures ok ==> Valid() && Receive(old(Current()), P1_FIRST, old(cursor.Rest())) == Some(Current())
      ensures !ok ==> rawTx[..] == old(rawTx[..])
    {
      hide TakePath, TakeU8;
      var path, version;
      ok, path := cursor.ReadBip32Path();
      if !ok {
        return;
      }
      bip32Path := path;
      ok, version := cursor.ReadU8();
      if !ok {
        return;
      }
      transactionVersion := version;
      if cursor.length > MAX_RAW_TX {
        return false;
      }
      rawTxLength := cursor.length;
      Copy(0, cursor);
      assert rawTx[..rawTxLength] == cursor.Rest();
    }

    /**
     A further chunk. If it is too long for the rest of the buffer nothing is written to the buffer, but the length
     exceeds the size of the buffer until the context is wiped.
     */
    method ReceiveNextChunk(cursor: Cursor) returns (ok: bool)
      requires Valid() && cursor.Valid() && cursor.memory != rawTx
      modifies this`rawTxLength, rawTx
      ensures ok <==> Receive(old(Current()), P1_MORE, cursor.Rest()).Some?
      ensures ok ==> Valid() && Receive(old(Current()), P1_MORE, old(cursor.Rest())) == Some(Current())
      ensures !ok ==> rawTx[..] == old(rawTx[..])
      ensures !ok ==> rawTxLength == old(rawTxLength) + |cursor.Rest()| > MAX_RAW_TX
    {
      hide TakePath, TakeU8;
      var offset := rawTxLength;
      rawTxLength := rawTxLength + cursor.length;
      if rawTxLength > MAX_RAW_TX {
        return false;
      }
      Copy(offset, cursor);
      ok := true;
    }

    method ReceiveChunk(p1: u8, memory: array<u8>, data: nat, length: u8) returns (ok: bool)
      requires Valid() && data + length <= memory.Length && memory != rawTx && (p1 == P1_FIRST || p1 == P1_MORE)
      modifies this, rawTx
      ensures ok <==> Receive(old(Current()), p1, memory[data..data + length]).Some?
      ensures ok ==> Valid() && Receive(old(Current()), p1, memory[data..data + length]) == Some(Current())
    {
      hide Receive;
      var cursor := new Cursor(memory, At(data), length);
      if p1 == P1_FIRST {
        ok := ReceiveFirstChunk(cursor);
      } else {
        ok := ReceiveNextChunk(cursor);
      }
    }

    /** Parses what was received into a struct that was wiped before. */
    method ParseReceived(addressOf: PublicKey -> Address) returns (sw: StatusWord, startAsyncReply: bool)
      requires Valid()
      modifies parsed
      ensures var (next, reply) := Finish(old(Current()), addressOf);
              sw == reply.sw && startAsyncReply == reply.review && (sw == SwOk ==> Current() == next)
    {
      parsed.Wipe();
      var r := ParseTx(transactionVersion, rawTx, rawTxLength, addressOf, parsed);
      if r.Err? {
        return ErrorToSw(r.error), false;
      }
      return SwOk, true;
    }

    method HandleSignTransaction(p1: u8, p2: u8, memory: array<u8>, data: nat, length: u8,
                                 addressOf: PublicKey -> Address)
      returns (sw: StatusWord, startAsyncReply: bool)
      requires Valid() && data + length <= memory.Length && memory != rawTx
      modifies this, rawTx, parsed
      ensures var (next, reply) := Step(old(Current()), Chunk(p1, p2, memory[data..data + length]), addressOf);
              sw == reply.sw && startAsyncReply == reply.review && (sw == SwOk ==> Valid() && Current() == next)
    {
      hide Outcome;
      startAsyncReply := false;
      if (p1 != P1_FIRST && p1 != P1_MORE) || (p2 != P2_LAST && p2 != P2_MORE) {
        return SwWrongP1P2, false;
      }
      var ok := ReceiveChunk(p1, memory, data, length);
      if !ok {
        return SwWrongDataLength, false;
      }
      ghost var received := Current();
      if p2 == P2_MORE {
        return SwOk, false;
      }
      sw, startAsyncReply := ParseReceived(addressOf);
    }

    /** Hands a command on to the handler unless its length is not the announced one. */
    method HandleCommand(apdu: array<u8>, length: u16, addressOf: PublicKey -> Address)
      returns (sw: StatusWord, startAsyncReply: bool)
      requires Valid() && apdu != rawTx && OFFSET_CDATA <= apdu.Length && length <= apdu.Length
      modifies this, rawTx, parsed
      ensures var (next, reply) := Step(old(Current()), CommandOf(apdu[..], length), addressOf);
              sw == reply.sw && startAsyncReply == reply.review && (sw == SwOk ==> Valid() && Current() == next)
    {
      hide Outcome;
      if length < OFFSET_LC + 1 || length != apdu[OFFSET_LC] + OFFSET_CDATA {
        return SwWrongDataLength, false;
      }
      assert CommandOf(apdu[..], length)
          == Chunk(apdu[OFFSET_P1], apdu[OFFSET_P2], apdu[OFFSET_CDATA..OFFSET_CDATA + apdu[OFFSET_LC]]);
      sw, startAsyncReply := HandleSignTransaction(apdu[OFFSET_P1], apdu[OFFSET_P2], apdu, OFFSET_CDATA,
                                                   apdu[OFFSET_LC], addressOf);
    }

    /**
     An iteration of the main loop for a command of `length` bytes in the APDU buffer, which is for this handler
     unless it is malformed. Whatever the handler leaves behind, the context is in order again afterwards.
     */
    method ProcessCommand(apdu: array<u8>, length: u16, addressOf: PublicKey -> Address)
      returns (sw: StatusWord, startAsyncReply: bool)
      requires Valid() && apdu != rawTx && OFFSET_CDATA <= apdu.Length && length <= apdu.Length
      modifies this, rawTx, parsed
      ensures Valid()
      ensures (Current(), Reply(sw, startAsyncReply)) == Step(old(Current()), CommandOf(apdu[..], length), addressOf)
    {
      hide Outcome;
      ErrorsWipe(Current(), CommandOf(apdu[..], length), addressOf);
      sw, startAsyncReply := HandleCommand(apdu, length, addressOf);
      if sw != SwOk {
        Wipe();
        startAsyncReply := false;
      }
    }
  }
}
