/**
 The public key in a created staker proof: how it is encoded, and that the encoding is the one of RFC 8032, section
 5.1.2: one coordinate of the curve point, least significant byte first, with the parity of the other one in the
 topmost bit.
 */
module PublicKeys {
  import opened Machine
  import opened Wire

  /** A curve point as the operating system represents it: a tag and two coordinates, most significant byte first. */
  type Point = b: Bytes | |b| == 65 witness seq(65, _ => 0)

  /** The two coordinates of a point. */
  function X(w: Point): nat {
    BigEndian(w[1..33])
  }

  function Y(w: Point): nat {
    BigEndian(w[33..65])
  }

  /** `b | 0x80` */
  function SetTopBit(b: u8): u8 {
    if b >= 0x80 then b else b + 0x80
  }

  /** The encoded key: one coordinate, turned round, and the parity of the other one in the top bit of the last byte. */
  function PublicKeyOf(w: Point): PublicKey {
    seq(32, i requires 0 <= i < 32 => if i == 31 && w[32] % 2 == 1 then SetTopBit(w[64 - i]) else w[64 - i])
  }

  /** The bytes of the key one by one. */
  lemma KeyBytes(w: Point)
    ensures forall k :: 0 <= k < 31 ==> PublicKeyOf(w)[k] == w[64 - k]
    ensures PublicKeyOf(w)[31] % 0x80 == w[33] % 0x80
    ensures PublicKeyOf(w)[31] >= 0x80 <==> w[33] >= 0x80 || w[32] % 2 == 1
  {
  }

  /** The number that bytes form, least significant byte first. */
  function LittleEndian(s: Bytes): nat {
    if s == [] then 0 else s[0] + 0x100 * LittleEndian(s[1..])
  }

  function Turned(s: Bytes): (t: Bytes)
    ensures |t| == |s|
  {
    if s == [] then [] else [s[|s| - 1]] + Turned(s[..|s| - 1])
  }

  lemma {:induction false} TurnedAt(s: Bytes, k: nat)
    requires k < |s|
    ensures Turned(s)[k] == s[|s| - 1 - k]
  {
    if k > 0 {
      TurnedAt(s[..|s| - 1], k - 1);
    }
  }

  lemma {:induction false} TurnedNumber(s: Bytes)
    ensures LittleEndian(Turned(s)) == BigEndian(s)
  {
    if s != [] {
      TurnedNumber(s[..|s| - 1]);
      assert Turned(s)[1..] == Turned(s[..|s| - 1]);
    }
  }

  lemma {:induction false} LittleEndianSnoc(s: Bytes, b: u8)
    ensures LittleEndian(s + [b]) == LittleEndian(s) + b * Pow256(|s|)
  {
    if s == [] {
      assert s + [b] == [b] && [b][1..] == [];
    } else {
      assert (s + [b])[1..] == s[1..] + [b];
      LittleEndianSnoc(s[1..], b);
      Scale(b, Pow256(|s| - 1));
    }
  }

  /** The last byte of a number tells its parity. */
  lemma ParityOfLast(s: Bytes)
    requires s != []
    ensures BigEndian(s) % 2 == s[|s| - 1] % 2
  {
    var init, last := BigEndian(s[..|s| - 1]), s[|s| - 1];
    assert (2 * (0x80 * init) + last) % 2 == last % 2;
  }

  /** The key is the coordinate turned round but for the top bit. */
  lemma KeyOfCoordinate(w: Point)
    ensures PublicKeyOf(w)[..31] == Turned(w[33..65])[..31] && Turned(w[33..65])[31] == w[33]
  {
    var y := w[33..65];
    forall k | 0 <= k < 32
      ensures Turned(y)[k] == w[64 - k]
    {
      TurnedAt(y, k);
    }
  }

  /** The value of the topmost bit of 32 bytes. */
  const TOP_BIT: int := 0x80 * Pow256(31)

  /** As a number the key is the one coordinate plus the parity of the other one times the topmost bit. */
  lemma KeyEncodesPoint(w: Point)
    requires w[33] < 0x80
    ensures LittleEndian(PublicKeyOf(w)) == Y(w) + X(w) % 2 * TOP_BIT
  {
    var key, turned := PublicKeyOf(w), Turned(w[33..65]);
    KeyOfCoordinate(w);
    KeyBytes(w);
    TurnedNumber(w[33..65]);
    ParityOfLast(w[1..33]);
    assert key == key[..31] + [key[31]] && turned == turned[..31] + [turned[31]];
    LittleEndianSnoc(key[..31], key[31]);
    LittleEndianSnoc(turned[..31], turned[31]);
    TopByte(w[33], key[31], w[32] % 2, Pow256(31));
  }

  lemma TopByte(b: int, c: int, parity: int, p: int)
    requires c == b + 0x80 * parity
    ensures c * p == b * p + parity * (0x80 * p)
  {
  }

  /** Different points of the curve have different keys: coordinate and parity can be told from the key. */
  lemma KeyDeterminesPoint(v: Point, w: Point)
    requires v[33] < 0x80 && w[33] < 0x80
    ensures PublicKeyOf(v) == PublicKeyOf(w) <==> Y(v) == Y(w) && X(v) % 2 == X(w) % 2
  {
    ParityOfLast(v[1..33]);
    ParityOfLast(w[1..33]);
    KeyBytes(v);
    KeyBytes(w);
    if PublicKeyOf(v) == PublicKeyOf(w) {
      assert forall k :: 0 <= k < 31 ==> v[64 - k] == PublicKeyOf(v)[k];
      forall i | 33 <= i < 65
        ensures v[i] == w[i]
      {
        assert i == 33 || v[64 - (64 - i)] == PublicKeyOf(v)[64 - i];
      }
      assert v[33..65] == w[33..65];
    } else if Y(v) == Y(w) {
      BigEndianRoundTrip(v[33..65]);
      BigEndianRoundTrip(w[33..65]);
      assert v[1..33][31] == v[32] && w[1..33][31] == w[32];
      if X(v) % 2 == X(w) % 2 {
        SameCoordinate(v, w);
      }
    }
  }

  lemma SameCoordinate(v: Point, w: Point)
    requires v[33..65] == w[33..65] && v[32] % 2 == w[32] % 2
    ensures PublicKeyOf(v) == PublicKeyOf(w)
  {
    forall k | 0 <= k < 32
      ensures PublicKeyOf(v)[k] == PublicKeyOf(w)[k]
    {
      assert v[64 - k] == v[33..65][31 - k] && w[64 - k] == w[33..65][31 - k];
    }
  }
}
