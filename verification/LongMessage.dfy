/**
 Messages that are announced with a length close to 2^32: the 32-bit sum of the length check wraps around, so that more
 bytes than announced are accepted, and what is hashed for signing is not the frame of any message.
 */
module LongMessage {
  import opened Decimal
  import opened Machine
  import opened MessageApproval
  import opened Protocol
  import opened SignMessage
  import opened Wire

  const TWO_TO_32 := 0x1_0000_0000

  /** Parts that can be sent, and that are all answered with success as long as more are to follow. */
  ghost predicate Accepted(st: Session, path: seq<u32>, flags: u8, n: u32, parts: seq<Bytes>)
    requires 1 <= |path| <= MAX_BIP32_PATH_LENGTH
  {
    && parts != [] && Sendable(Header(path, flags, n), parts)
    && AllAnswered(Step, st, Opening(Header(path, flags, n), parts))
  }

  lemma Sendables(header: Bytes, parts: seq<Bytes>, part: Bytes)
    requires parts != [] && Sendable(header, parts) && |part| <= 0xFF
    ensures Sendable(header, parts + [part])
  {
  }

  /** A further part is accepted if the check passes. */
  lemma OnePartMore(st: Session, path: seq<u32>, flags: u8, n: u32, parts: seq<Bytes>, part: Bytes)
    requires 1 <= |path| <= MAX_BIP32_PATH_LENGTH && Accepted(st, path, flags, n, parts) && |part| <= 0xFF
    requires CheckPasses(|Concat(parts)| % TWO_TO_32, |part|, n)
    ensures Accepted(st, path, flags, n, parts + [part])
  {
    var header, more := Header(path, flags, n), parts + [part];
    Sendables(header, parts, part);
    OpeningAbsorbs(st, path, flags, n, parts);
    PartStep(st, path, flags, n, parts, part, After(Step, st, Opening(header, parts)), P2_MORE);
    assert more[..|more| - 1] == parts && more[|more| - 1] == part;
    RunSnoc(Step, st, Opening(header, parts), PartCommand(header, false, P2_MORE, part));
  }

  /** The check before and after the sum has wrapped around. */
  lemma Checked(base: nat, low: u32, part: u8, n: u32)
    requires base == 0 || base == TWO_TO_32
    ensures CheckPasses((base + low) % TWO_TO_32, part, n) <==> CheckPasses(low, part, n)
  {
  }

  /** A part is accepted and adds to the length of what was sent. */
  lemma LongerBy(st: Session, path: seq<u32>, flags: u8, n: u32, parts: seq<Bytes>, part: Bytes, base: nat, low: u32)
    requires 1 <= |path| <= MAX_BIP32_PATH_LENGTH && Accepted(st, path, flags, n, parts) && |part| <= 0xFF
    requires |Concat(parts)| == base + low && (base == 0 || base == TWO_TO_32) && CheckPasses(low, |part|, n)
    ensures Accepted(st, path, flags, n, parts + [part]) && |Concat(parts + [part])| == base + low + |part|
  {
    hide Accepted, CheckPasses;
    Checked(base, low, |part|, n);
    OnePartMore(st, path, flags, n, parts, part);
    ConcatSnoc(parts, part);
  }

  /** Byte by byte the announced length can be reached. */
  lemma {:induction false} CountUp(st: Session, path: seq<u32>, flags: u8, n: u32, parts: seq<Bytes>, j: nat, base: nat)
    returns (more: seq<Bytes>)
    requires 1 <= |path| <= MAX_BIP32_PATH_LENGTH && Accepted(st, path, flags, n, parts)
    requires |Concat(parts)| == base && (base == 0 || base == TWO_TO_32) && j <= n
    ensures Accepted(st, path, flags, n, more) && |Concat(more)| == base + j
  {
    if j == 0 {
      more := parts;
    } else {
      var before := CountUp(st, path, flags, n, parts, j - 1, base);
      LongerBy(st, path, flags, n, before, [0], base, j - 1);
      more := before + [[0]];
    }
  }

  /** The empty part behind the header. */
  lemma EmptyBeginning(st: Session, path: seq<u32>, flags: u8, n: u32) returns (parts: seq<Bytes>)
    requires 1 <= |path| <= MAX_BIP32_PATH_LENGTH
    ensures Accepted(st, path, flags, n, parts) && |Concat(parts)| == 0
  {
    var empty: Bytes := [];
    parts := [empty];
    HeaderLength(path, flags, n);
    ConcatOne(empty);
    OpeningAbsorbs(st, path, flags, n, parts);
  }

  /** As many bytes as announced are sent, and then so many that the sum is 2^32. */
  lemma UpToWrap(st: Session, path: seq<u32>, flags: u8, n: u32) returns (parts: seq<Bytes>)
    requires 1 <= |path| <= MAX_BIP32_PATH_LENGTH && n > TWO_TO_32 - 0x100
    ensures Accepted(st, path, flags, n, parts) && |Concat(parts)| == TWO_TO_32
  {
    var rest: Bytes := seq(TWO_TO_32 - n, _ => 0);
    parts := EmptyBeginning(st, path, flags, n);
    parts := CountUp(st, path, flags, n, parts, n, 0);
    LongerBy(st, path, flags, n, parts, rest, 0, n);
    parts := parts + [rest];
  }

  /**
   For every announced length above 2^32 - 256 there is a request with 2^32 more bytes that is answered with success;
   the hash input for signing is then the frame of no message.
   */
  lemma WrappedRequest(st: Session, path: seq<u32>, flags: u8, n: u32) returns (parts: seq<Bytes>)
    requires 1 <= |path| <= MAX_BIP32_PATH_LENGTH && n > TWO_TO_32 - 0x100
    ensures parts != [] && Sendable(Header(path, flags, n), parts) && |Concat(parts)| == n + TWO_TO_32
    ensures AllAnswered(Step, st, Request(Header(path, flags, n), parts))
    ensures forall m: Bytes :: Frame(m) != After(Step, st, Request(Header(path, flags, n), parts)).prefixed
  {
    var opening := UpToWrap(st, path, flags, n);
    opening := CountUp(st, path, flags, n, opening, n - 1, TWO_TO_32);
    parts := LastByte(st, path, flags, n, opening);
    forall m: Bytes
      ensures Frame(m) != FramePrefix(n) + Concat(parts)
    {
      NotAFrame(n, Concat(parts), m);
    }
  }

  /** The last byte completes the request. */
  lemma LastByte(st: Session, path: seq<u32>, flags: u8, n: u32, opening: seq<Bytes>) returns (parts: seq<Bytes>)
    requires 1 <= |path| <= MAX_BIP32_PATH_LENGTH && n > TWO_TO_32 - 0x100
    requires Accepted(st, path, flags, n, opening) && |Concat(opening)| == TWO_TO_32 + (n - 1)
    ensures parts != [] && Sendable(Header(path, flags, n), parts) && |Concat(parts)| == n + TWO_TO_32
    ensures AllAnswered(Step, st, Request(Header(path, flags, n), parts))
    ensures After(Step, st, Request(Header(path, flags, n), parts)).prefixed == FramePrefix(n) + Concat(parts)
  {
    parts := opening + [[0]];
    assert parts[..|parts| - 1] == opening && parts[|parts| - 1] == [0];
    Sendables(Header(path, flags, n), opening, [0]);
    ConcatSnoc(opening, [0]);
    Completed(st, path, flags, n, parts, opening);
  }

  lemma Completed(st: Session, path: seq<u32>, flags: u8, n: u32, parts: seq<Bytes>, opening: seq<Bytes>)
    requires 1 <= |path| <= MAX_BIP32_PATH_LENGTH && n > 0 && Sendable(Header(path, flags, n), parts)
    requires parts != [] && parts[..|parts| - 1] == opening && parts[|parts| - 1] == [0]
    requires AllAnswered(Step, st, Opening(Header(path, flags, n), opening))
    requires |Concat(opening)| == TWO_TO_32 + (n - 1)
    ensures AllAnswered(Step, st, Request(Header(path, flags, n), parts))
    ensures After(Step, st, Request(Header(path, flags, n), parts)).prefixed == FramePrefix(n) + Concat(parts)
  {
    LastChecked(n);
    RequestFinishes(st, path, flags, n, parts);
  }

  lemma LastChecked(n: u32)
    requires n > 0
    ensures LastChecks(n, TWO_TO_32 + (n - 1), 1)
  {
  }

  /** The announced length and the actual one have ten digits. */
  lemma TenDigits(x: nat)
    requires 1_000_000_000 <= x < 10_000_000_000
    ensures |Numeral(x)| == 10
  {
    assert Pow10(9) == 1_000_000_000 by {
      assert Pow10(4) == 10_000 && Pow10(8) == 10 * (10 * (10 * (10 * Pow10(4))));
    }
    NumeralLength(x, 9);
    NumeralLength(x, 10);
  }

  lemma NotAFrame(n: u32, message: Bytes, m: Bytes)
    requires n > TWO_TO_32 - 0x100 && |message| == n + TWO_TO_32
    ensures Frame(m) != FramePrefix(n) + message
  {
    TenDigits(n);
    TenDigits(|message|);
    CharBytesLength(Numeral(n));
    CharBytesLength(Numeral(|message|));
    assert |FramePrefix(n) + message| == |Frame(message)|;
    FrameLength(m, message);
    FrameLength(message, m);
    if Frame(m) == FramePrefix(n) + message {
      SamePrefix(n, message, m);
    }
  }

  lemma SamePrefix(n: nat, message: Bytes, m: Bytes)
    requires |m| == |message| && Frame(m) == FramePrefix(n) + message
    ensures n == |message|
  {
    var k := |FramePrefix(n)|;
    assert |FramePrefix(|m|)| == k;
    assert FramePrefix(n) == (FramePrefix(n) + message)[..k] == Frame(m)[..k] == FramePrefix(|m|);
    FramePrefixInjective(n, |m|);
  }
}
