/** What the signing commands of main.c have in common: a request arrives in chunks, one command each. */
module Protocol {
  import opened Machine

  const P1_FIRST: u8 := 0x00
  const P1_MORE: u8 := 0x80
  const P2_LAST: u8 := 0x00
  const P2_MORE: u8 := 0x80

  const OFFSET_P1 := 2
  const OFFSET_P2 := 3
  const OFFSET_LC := 4
  const OFFSET_CDATA := 5

  /** A command as it was received; if its length is not the announced one, none of it is looked at. */
  datatype Command = Malformed | Chunk(p1: u8, p2: u8, data: Bytes)

  predicate ValidP1P2(p1: u8, p2: u8) {
    (p1 == P1_FIRST || p1 == P1_MORE) && (p2 == P2_LAST || p2 == P2_MORE)
  }

  /** The answer, and whether the user was asked for an approval. */
  datatype Reply = Reply(sw: StatusWord, review: bool)

  /** The announced length is that of what follows the header. */
  predicate LengthAsAnnounced(apdu: Bytes, length: nat) {
    length <= |apdu| && length >= OFFSET_CDATA && length == apdu[OFFSET_LC] + OFFSET_CDATA
  }

  /** The command in the first `length` bytes of the APDU buffer. */
  function CommandOf(apdu: Bytes, length: nat): Command {
    if !LengthAsAnnounced(apdu, length) then Malformed
    else Chunk(apdu[OFFSET_P1], apdu[OFFSET_P2], apdu[OFFSET_CDATA..length])
  }

  /** The commands that APDUs stand for. */
  function CommandsOf(apdus: seq<Bytes>): (commands: seq<Command>)
    ensures |commands| == |apdus|
  {
    if apdus == [] then []
    else CommandsOf(apdus[..|apdus| - 1]) + [CommandOf(apdus[|apdus| - 1], |apdus[|apdus| - 1]|)]
  }

  /** What stands behind a command in the buffer does not matter. */
  lemma CommandInBuffer(apdu: Bytes, buffer: Bytes)
    requires |apdu| <= |buffer| && buffer[..|apdu|] == apdu
    ensures CommandOf(buffer, |apdu|) == CommandOf(apdu, |apdu|)
  {
    if |apdu| >= OFFSET_CDATA {
      assert apdu[OFFSET_LC] == buffer[OFFSET_LC] && apdu[OFFSET_P1] == buffer[OFFSET_P1];
      assert apdu[OFFSET_P2] == buffer[OFFSET_P2];
      assert apdu[OFFSET_CDATA..|apdu|] == buffer[OFFSET_CDATA..|apdu|];
    }
  }

  /** What all chunks say. */
  function Concat(chunks: seq<Bytes>): Bytes {
    if chunks == [] then [] else Concat(chunks[..|chunks| - 1]) + chunks[|chunks| - 1]
  }

  lemma ConcatSnoc(chunks: seq<Bytes>, chunk: Bytes)
    ensures Concat(chunks + [chunk]) == Concat(chunks) + chunk
  {
    assert (chunks + [chunk])[..|chunks|] == chunks;
  }

  lemma ConcatOne(s: Bytes)
    ensures Concat([s]) == s
  {
    assert Concat([]) == [];
  }

  // ---------------------------------------------------------------------------------------------------------------
  // Runs of commands, for any kind of context and step

  /** The context after a run of commands. */
  function After<S>(step: (S, Command) -> (S, Reply), st: S, commands: seq<Command>): S {
    if commands == [] then st
    else step(After(step, st, commands[..|commands| - 1]), commands[|commands| - 1]).0
  }

  /** The reply to the last command of a run. */
  function LastReply<S>(step: (S, Command) -> (S, Reply), st: S, commands: seq<Command>): Reply
    requires commands != []
  {
    step(After(step, st, commands[..|commands| - 1]), commands[|commands| - 1]).1
  }

  /** Every command of a run is answered with success. */
  predicate AllAnswered<S>(step: (S, Command) -> (S, Reply), st: S, commands: seq<Command>) {
    commands == []
    || (AllAnswered(step, st, commands[..|commands| - 1]) && LastReply(step, st, commands).sw == SwOk)
  }

  /** One more command at the end of a run. */
  lemma RunSnoc<S>(step: (S, Command) -> (S, Reply), st: S, run: seq<Command>, c: Command)
    ensures After(step, st, run + [c]) == step(After(step, st, run), c).0
    ensures LastReply(step, st, run + [c]) == step(After(step, st, run), c).1
    ensures AllAnswered(step, st, run + [c])
       <==> AllAnswered(step, st, run) && LastReply(step, st, run + [c]).sw == SwOk
  {
    assert (run + [c])[..|run|] == run;
  }

  /** A part of a request in a command; the first one carries the header, too. */
  function PartCommand(header: Bytes, first: bool, p2: u8, part: Bytes): Command {
    if first then Chunk(P1_FIRST, p2, header + part) else Chunk(P1_MORE, p2, part)
  }

  /** Parts of a request that are to be followed by more. */
  function Opening(header: Bytes, parts: seq<Bytes>): (commands: seq<Command>) {
    if parts == [] then []
    else Opening(header, parts[..|parts| - 1]) + [PartCommand(header, |parts| == 1, P2_MORE, parts[|parts| - 1])]
  }

  lemma OpeningSnoc(header: Bytes, parts: seq<Bytes>, part: Bytes)
    ensures Opening(header, parts + [part])
         == Opening(header, parts) + [PartCommand(header, parts == [], P2_MORE, part)]
  {
    var more := parts + [part];
    assert more[..|more| - 1] == parts && more[|more| - 1] == part && (|more| == 1 <==> parts == []);
  }

  /** All parts of a request. */
  function Request(header: Bytes, parts: seq<Bytes>): (commands: seq<Command>)
    requires parts != []
  {
    Opening(header, parts[..|parts| - 1]) + [PartCommand(header, |parts| == 1, P2_LAST, parts[|parts| - 1])]
  }

  // ---------------------------------------------------------------------------------------------------------------
  // What a host sends, byte by byte

  /** An APDU as a host builds it: class, instruction, two parameters, and the length of the data before the data. */
  function Apdu(instruction: u8, p1: u8, p2: u8, data: Bytes): Bytes
    requires |data| <= 0xFF
  {
    [0xE0, instruction, p1, p2, |data|] + data
  }

  /** Exactly the byte strings of this form are commands, and they are taken as they were meant. */
  lemma ApduDecoded(apdu: Bytes, p1: u8, p2: u8, data: Bytes)
    ensures CommandOf(apdu, |apdu|) == Chunk(p1, p2, data)
       <==> |data| <= 0xFF && |apdu| >= 2 && apdu == apdu[..2] + [p1, p2, |data|] + data
  {
    if |apdu| >= 5 {
      assert apdu == apdu[..2] + [apdu[2], apdu[3], apdu[4]] + apdu[5..];
    }
    if |data| <= 0xFF && |apdu| >= 2 && apdu == apdu[..2] + [p1, p2, |data|] + data {
      assert apdu[5..] == data;
    }
  }

  /** Every part fits into a command, the first one together with the header. */
  predicate Sendable(header: Bytes, parts: seq<Bytes>) {
    forall k :: 0 <= k < |parts| ==> |parts[k]| + (if k == 0 then |header| else 0) <= 0xFF
  }

  /** The bytes that a host sends for parts that are to be followed by more. */
  function HostOpening(instruction: u8, header: Bytes, parts: seq<Bytes>): (apdus: seq<Bytes>)
    requires Sendable(header, parts)
    ensures |apdus| == |parts|
  {
    if parts == [] then []
    else
      var part := parts[|parts| - 1];
      HostOpening(instruction, header, parts[..|parts| - 1])
      + [if |parts| == 1 then Apdu(instruction, 0x00, 0x80, header + part) else Apdu(instruction, 0x80, 0x80, part)]
  }

  /** The bytes that a host sends for a whole request. */
  function HostRequest(instruction: u8, header: Bytes, parts: seq<Bytes>): (apdus: seq<Bytes>)
    requires parts != [] && Sendable(header, parts)
    ensures |apdus| == |parts|
  {
    var part := parts[|parts| - 1];
    HostOpening(instruction, header, parts[..|parts| - 1])
    + [if |parts| == 1 then Apdu(instruction, 0x00, 0x00, header + part) else Apdu(instruction, 0x80, 0x00, part)]
  }

  lemma CommandsSnoc(apdus: seq<Bytes>, apdu: Bytes)
    ensures CommandsOf(apdus + [apdu]) == CommandsOf(apdus) + [CommandOf(apdu, |apdu|)]
  {
    assert (apdus + [apdu])[..|apdus|] == apdus;
  }

  lemma ApduCommand(instruction: u8, p1: u8, p2: u8, data: Bytes)
    requires |data| <= 0xFF
    ensures var apdu := Apdu(instruction, p1, p2, data); CommandOf(apdu, |apdu|) == Chunk(p1, p2, data)
  {
    var apdu := Apdu(instruction, p1, p2, data);
    assert apdu == apdu[..2] + [p1, p2, |data|] + data;
    ApduDecoded(apdu, p1, p2, data);
  }

  lemma {:induction false} HostOpeningDecoded(instruction: u8, header: Bytes, parts: seq<Bytes>)
    requires Sendable(header, parts)
    ensures CommandsOf(HostOpening(instruction, header, parts)) == Opening(header, parts)
  {
    if parts != [] {
      var init, part := parts[..|parts| - 1], parts[|parts| - 1];
      HostOpeningDecoded(instruction, header, init);
      if |parts| == 1 {
        ApduCommand(instruction, 0x00, 0x80, header + part);
        CommandsSnoc(HostOpening(instruction, header, init), Apdu(instruction, 0x00, 0x80, header + part));
      } else {
        ApduCommand(instruction, 0x80, 0x80, part);
        CommandsSnoc(HostOpening(instruction, header, init), Apdu(instruction, 0x80, 0x80, part));
      }
    }
  }

  /** The bytes of a request are taken as the commands of the request. */
  lemma HostRequestDecoded(instruction: u8, header: Bytes, parts: seq<Bytes>)
    requires parts != [] && Sendable(header, parts)
    ensures CommandsOf(HostRequest(instruction, header, parts)) == Request(header, parts)
  {
    var init, part := parts[..|parts| - 1], parts[|parts| - 1];
    HostOpeningDecoded(instruction, header, init);
    if |parts| == 1 {
      ApduCommand(instruction, 0x00, 0x00, header + part);
      CommandsSnoc(HostOpening(instruction, header, init), Apdu(instruction, 0x00, 0x00, header + part));
    } else {
      ApduCommand(instruction, 0x80, 0x00, part);
      CommandsSnoc(HostOpening(instruction, header, init), Apdu(instruction, 0x80, 0x00, part));
    }
  }
}
