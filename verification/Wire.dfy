/**
 The elements of the wire format, read from the front of a byte string and written to one, and the facts that make the
 two inverse to each other: what was written is read back, and what was read is what had been written.
 */
module Wire {
  import opened Machine

  /** A value read from the front of a byte string, and what follows it. */
  datatype Taken<+T> = Taken(value: T, rest: Bytes)

  function TakeBytes(n: nat, s: Bytes): Option<Taken<Bytes>> {
    if n <= |s| then Some(Taken(s[..n], s[n..])) else None
  }

  function TakeU8(s: Bytes): Option<Taken<u8>> {
    if |s| >= 1 then Some(Taken(s[0], s[1..])) else None
  }

  /** The number that bytes form, most significant byte first. */
  function BigEndian(s: Bytes): nat {
    if s == [] then 0 else BigEndian(s[..|s| - 1]) * 0x100 + s[|s| - 1]
  }

  /** A number as `n` bytes, most significant byte first. */
  function ToBytes(n: nat, x: nat): (s: Bytes)
    ensures |s| == n
  {
    if n == 0 then [] else ToBytes(n - 1, x / 0x100) + [x % 0x100]
  }

  function Pow256(n: nat): (p: int)
    ensures p >= 1
  {
    if n == 0 then 1 else 0x100 * Pow256(n - 1)
  }

  function TakeU16(s: Bytes): Option<Taken<u16>> {
    if |s| < 2 then None
    else
      IntegerBounds(s);
      Some(Taken(BigEndian(s[..2]), s[2..]))
  }

  function TakeU32(s: Bytes): Option<Taken<u32>> {
    if |s| < 4 then None
    else
      IntegerBounds(s);
      Some(Taken(BigEndian(s[..4]), s[4..]))
  }

  function TakeU64(s: Bytes): Option<Taken<u64>> {
    if |s| < 8 then None
    else
      IntegerBounds(s);
      Some(Taken(BigEndian(s[..8]), s[8..]))
  }

  function TakeAddress(s: Bytes): Option<Taken<Address>> {
    if |s| >= 20 then Some(Taken(s[..20], s[20..])) else None
  }

  /** A length of a single byte, without continuation bit, and as many bytes. */
  function TakeVec(s: Bytes): Option<Taken<Bytes>> {
    var length :- TakeU8(s);
    if length.value >= 0x80 then None else TakeBytes(length.value, length.rest)
  }

  const MAX_BIP32_PATH_LENGTH := 10

  /** A path of one to ten entries, each of four bytes, behind a byte with their number. */
  function TakePath(s: Bytes): Option<Taken<seq<u32>>> {
    var length :- TakeU8(s);
    if length.value < 1 || length.value > MAX_BIP32_PATH_LENGTH then None
    else TakeEntries(length.value, length.rest)
  }

  function TakeEntries(n: nat, s: Bytes): (t: Option<Taken<seq<u32>>>)
    ensures t.Some? ==> |t.value.value| == n
  {
    if n == 0 then Some(Taken([], s))
    else
      var entries :- TakeEntries(n - 1, s);
      var entry :- TakeU32(entries.rest);
      Some(Taken(entries.value + [entry.value], entry.rest))
  }

  function PutU16(x: u16): Bytes {
    ToBytes(2, x)
  }

  function PutU32(x: u32): Bytes {
    ToBytes(4, x)
  }

  function PutU64(x: u64): Bytes {
    ToBytes(8, x)
  }

  function PutVec(data: Bytes): Bytes
    requires |data| < 0x80
  {
    [|data|] + data
  }

  function PutEntries(path: seq<u32>): Bytes {
    if path == [] then [] else PutEntries(path[..|path| - 1]) + PutU32(path[|path| - 1])
  }

  function PutPath(path: seq<u32>): Bytes
    requires 1 <= |path| <= MAX_BIP32_PATH_LENGTH
  {
    [|path|] + PutEntries(path)
  }

  // ---------------------------------------------------------------------------------------------------------------
  // Numbers and bytes

  lemma {:induction false} BigEndianBound(s: Bytes)
    ensures BigEndian(s) < Pow256(|s|)
  {
    if s != [] {
      BigEndianBound(s[..|s| - 1]);
    }
  }

  lemma SmallPowers()
    ensures Pow256(1) == 0x100 && Pow256(2) == 0x1_0000 && Pow256(4) == 0x1_0000_0000
    ensures Pow256(8) == 0x1_0000_0000_0000_0000
  {
    assert Pow256(2) == 0x100 * Pow256(1);
    assert Pow256(4) == 0x100 * (0x100 * Pow256(2));
    assert Pow256(6) == 0x100 * (0x100 * Pow256(4));
    assert Pow256(8) == 0x100 * (0x100 * Pow256(6));
  }

  lemma IntegerBounds(s: Bytes)
    ensures |s| >= 2 ==> BigEndian(s[..2]) < 0x1_0000
    ensures |s| >= 4 ==> BigEndian(s[..4]) < 0x1_0000_0000
    ensures |s| >= 8 ==> BigEndian(s[..8]) < 0x1_0000_0000_0000_0000
  {
    SmallPowers();
    if |s| >= 2 {
      BigEndianBound(s[..2]);
    }
    if |s| >= 4 {
      BigEndianBound(s[..4]);
    }
    if |s| >= 8 {
      BigEndianBound(s[..8]);
    }
  }

  /** The number of a row of bytes, put together of the numbers of two parts. */
  lemma {:induction false} BigEndianConcat(a: Bytes, b: Bytes)
    ensures BigEndian(a + b) == BigEndian(a) * Pow256(|b|) + BigEndian(b)
  {
    if b == [] {
      assert a + b == a;
    } else {
      var c := b[..|b| - 1];
      BigEndianConcat(a, c);
      assert (a + b)[..|a + b| - 1] == a + c && (a + b)[|a + b| - 1] == b[|c|];
      Scale(BigEndian(a), Pow256(|c|));
    }
  }

  lemma Scale(x: int, p: int)
    ensures 0x100 * (x * p) == x * (0x100 * p)
  {
  }

  lemma {:induction false} ToBytesRoundTrip(n: nat, x: nat)
    requires x < Pow256(n)
    ensures BigEndian(ToBytes(n, x)) == x
  {
    if n > 0 {
      ToBytesRoundTrip(n - 1, x / 0x100);
      assert ToBytes(n, x)[..n - 1] == ToBytes(n - 1, x / 0x100);
    }
  }

  lemma {:induction false} BigEndianRoundTrip(s: Bytes)
    ensures ToBytes(|s|, BigEndian(s)) == s
  {
    if s != [] {
      var init, last := s[..|s| - 1], s[|s| - 1];
      BigEndianRoundTrip(init);
      assert BigEndian(s) / 0x100 == BigEndian(init) && BigEndian(s) % 0x100 == last;
      assert s == init + [last];
    }
  }

  /** Reading an integer as two halves of `k` bytes each. */
  lemma TwoHalves(s: Bytes, k: nat)
    requires |s| >= 2 * k
    ensures s[k..][..k] == s[k..2 * k] && s[k..][k..] == s[2 * k..]
    ensures BigEndian(s[..2 * k]) == BigEndian(s[..k]) * Pow256(k) + BigEndian(s[k..2 * k])
  {
    assert s[..2 * k] == s[..k] + s[k..2 * k];
    BigEndianConcat(s[..k], s[k..2 * k]);
  }

  // ---------------------------------------------------------------------------------------------------------------
  // Writing, then reading

  lemma Associative(a: Bytes, b: Bytes, c: Bytes)
    ensures (a + b) + c == a + (b + c)
  {
  }

  lemma TakePutBytes(data: Bytes, rest: Bytes)
    ensures TakeBytes(|data|, data + rest) == Some(Taken(data, rest))
  {
    assert (data + rest)[..|data|] == data && (data + rest)[|data|..] == rest;
  }

  lemma TakePutAddress(a: Address, rest: Bytes)
    ensures TakeAddress(a + rest) == Some(Taken(a, rest))
  {
    TakePutBytes(a, rest);
  }

  lemma TakePutU8(x: u8, rest: Bytes)
    ensures TakeU8([x] + rest) == Some(Taken(x, rest))
  {
    assert ([x] + rest)[1..] == rest;
  }

  lemma TakePutInt(n: nat, x: nat, rest: Bytes)
    requires x < Pow256(n)
    ensures (ToBytes(n, x) + rest)[..n] == ToBytes(n, x) && (ToBytes(n, x) + rest)[n..] == rest
    ensures BigEndian(ToBytes(n, x)) == x
  {
    ToBytesRoundTrip(n, x);
  }

  lemma TakePutU16(x: u16, rest: Bytes)
    ensures TakeU16(PutU16(x) + rest) == Some(Taken(x, rest))
  {
    SmallPowers();
    TakePutInt(2, x, rest);
  }

  lemma TakePutU32(x: u32, rest: Bytes)
    ensures TakeU32(PutU32(x) + rest) == Some(Taken(x, rest))
  {
    SmallPowers();
    TakePutInt(4, x, rest);
  }

  lemma TakePutU64(x: u64, rest: Bytes)
    ensures TakeU64(PutU64(x) + rest) == Some(Taken(x, rest))
  {
    SmallPowers();
    TakePutInt(8, x, rest);
  }

  lemma TakePutVec(data: Bytes, rest: Bytes)
    requires |data| < 0x80
    ensures TakeVec(PutVec(data) + rest) == Some(Taken(data, rest))
  {
    assert PutVec(data) + rest == [|data|] + (data + rest);
    TakePutU8(|data|, data + rest);
    TakePutBytes(data, rest);
  }

  // ---------------------------------------------------------------------------------------------------------------
  // Reading, then writing

  lemma PutTakenBytes(n: nat, s: Bytes)
    requires TakeBytes(n, s).Some?
    ensures var t := TakeBytes(n, s).value; |t.value| == n && s == t.value + t.rest
  {
  }

  lemma PutTakenAddress(s: Bytes)
    requires TakeAddress(s).Some?
    ensures var t := TakeAddress(s).value; s == t.value + t.rest
  {
  }

  lemma PutTakenU8(s: Bytes)
    requires TakeU8(s).Some?
    ensures var t := TakeU8(s).value; s == [t.value] + t.rest
  {
  }

  lemma PutTakenU16(s: Bytes)
    requires TakeU16(s).Some?
    ensures var t := TakeU16(s).value; s == PutU16(t.value) + t.rest
  {
    BigEndianRoundTrip(s[..2]);
  }

  lemma PutTakenU32(s: Bytes)
    requires TakeU32(s).Some?
    ensures var t := TakeU32(s).value; s == PutU32(t.value) + t.rest
  {
    BigEndianRoundTrip(s[..4]);
  }

  lemma PutTakenU64(s: Bytes)
    requires TakeU64(s).Some?
    ensures var t := TakeU64(s).value; s == PutU64(t.value) + t.rest
  {
    BigEndianRoundTrip(s[..8]);
  }

  lemma PutTakenVec(s: Bytes)
    requires TakeVec(s).Some?
    ensures var t := TakeVec(s).value; |t.value| < 0x80 && s == PutVec(t.value) + t.rest
  {
    var length := TakeU8(s).value;
    PutTakenU8(s);
    PutTakenBytes(length.value, length.rest);
  }

  lemma {:induction false} EntriesLength(path: seq<u32>)
    ensures |PutEntries(path)| == 4 * |path|
  {
    if path != [] {
      EntriesLength(path[..|path| - 1]);
    }
  }

  lemma {:induction false} TakePutEntries(path: seq<u32>, rest: Bytes)
    ensures TakeEntries(|path|, PutEntries(path) + rest) == Some(Taken(path, rest))
  {
    hide TakeU32, PutU32;
    if path == [] {
      assert PutEntries(path) + rest == rest;
    } else {
      var init, last := path[..|path| - 1], path[|path| - 1];
      TakePutEntries(init, PutU32(last) + rest);
      assert PutEntries(path) + rest == PutEntries(init) + (PutU32(last) + rest);
      TakePutU32(last, rest);
      assert path == init + [last];
    }
  }

  lemma TakePutPath(path: seq<u32>, rest: Bytes)
    requires 1 <= |path| <= MAX_BIP32_PATH_LENGTH
    ensures TakePath(PutPath(path) + rest) == Some(Taken(path, rest))
  {
    assert PutPath(path) + rest == [|path|] + (PutEntries(path) + rest);
    TakePutU8(|path|, PutEntries(path) + rest);
    TakePutEntries(path, rest);
  }

  lemma {:induction false} PutTakenEntries(n: nat, s: Bytes)
    requires TakeEntries(n, s).Some?
    ensures var t := TakeEntries(n, s).value; s == PutEntries(t.value) + t.rest
  {
    if n > 0 {
      PutTakenEntries(n - 1, s);
      var entries := TakeEntries(n - 1, s).value;
      PutTakenU32(entries.rest);
      var path := TakeEntries(n, s).value.value;
      assert path[..|path| - 1] == entries.value;
    }
  }

  lemma PutTakenPath(s: Bytes)
    requires TakePath(s).Some?
    ensures var t := TakePath(s).value; 1 <= |t.value| <= MAX_BIP32_PATH_LENGTH && s == PutPath(t.value) + t.rest
  {
    var length := TakeU8(s).value;
    PutTakenU8(s);
    PutTakenEntries(length.value, length.rest);
  }

  // ---------------------------------------------------------------------------------------------------------------
  // Where the bytes of numbers stand

  function U16At(s: Bytes, i: nat): u16
    requires i + 2 <= |s|
  {
    var a: int, b: int := s[i], s[i + 1];
    0x100 * a + b
  }

  function U32At(s: Bytes, i: nat): u32
    requires i + 4 <= |s|
  {
    var a: int, b: int := U16At(s, i), U16At(s, i + 2);
    0x1_0000 * a + b
  }

  function U64At(s: Bytes, i: nat): u64
    requires i + 8 <= |s|
  {
    var a: int, b: int := U32At(s, i), U32At(s, i + 4);
    0x1_0000_0000 * a + b
  }

  /** Numbers stand with their most significant byte first. */
  lemma NumbersAt(s: Bytes)
    ensures |s| >= 2 ==> BigEndian(s[..2]) == U16At(s, 0)
    ensures |s| >= 4 ==> BigEndian(s[..4]) == U32At(s, 0)
    ensures |s| >= 8 ==> BigEndian(s[..8]) == U64At(s, 0)
  {
    if |s| >= 2 {
      TwoBytes(s);
    }
    if |s| >= 4 {
      FourBytes(s);
    }
    if |s| >= 8 {
      TwoHalves(s, 4);
      FourBytes(s);
      FourBytes(s[4..]);
      assert s[4..][..4] == s[4..8];
      SmallPowers();
    }
  }

  lemma TwoBytes(s: Bytes)
    requires |s| >= 2
    ensures BigEndian(s[..2]) == U16At(s, 0)
  {
    assert s[..2][..1] == [s[0]];
    assert BigEndian([s[0]]) == s[0];
  }

  lemma FourBytes(s: Bytes)
    requires |s| >= 4
    ensures BigEndian(s[..4]) == U32At(s, 0)
  {
    TwoBytes(s);
    assert s[2..][..2] == s[2..4];
    TwoBytes(s[2..]);
    TwoHalves(s, 2);
    SmallPowers();
  }

  /** Numbers stand where they stand, also in a part of the bytes. */
  lemma NumbersInside(s: Bytes, i: nat)
    requires i <= |s|
    ensures i + 2 <= |s| ==> U16At(s[i..], 0) == U16At(s, i)
    ensures i + 4 <= |s| ==> U32At(s[i..], 0) == U32At(s, i)
    ensures i + 8 <= |s| ==> U64At(s[i..], 0) == U64At(s, i)
  {
  }

  /** The entries of a path stand one behind the other, each in four bytes. */
  lemma {:induction false} EntriesAt(path: seq<u32>, k: nat)
    requires k < |path|
    ensures |PutEntries(path)| == 4 * |path| && U32At(PutEntries(path), 4 * k) == path[k]
  {
    var n := |path| - 1;
    EntriesLength(path);
    EntriesLength(path[..n]);
    if k < n {
      EntriesAt(path[..n], k);
    } else {
      var last := PutU32(path[n]);
      assert PutEntries(path)[4 * n..] == last;
      NumberOfPut(path[n]);
      NumbersInside(PutEntries(path), 4 * n);
    }
  }

  lemma NumberOfPut(x: u32)
    ensures U32At(PutU32(x), 0) == x
  {
    SmallPowers();
    ToBytesRoundTrip(4, x);
    assert PutU32(x)[..4] == PutU32(x);
    FourBytes(PutU32(x));
  }

  /** A path byte by byte: the number of entries, and the entries. */
  lemma PathAt(path: seq<u32>)
    requires 1 <= |path| <= MAX_BIP32_PATH_LENGTH
    ensures |PutPath(path)| == 1 + 4 * |path| && PutPath(path)[0] == |path|
    ensures forall k :: 0 <= k < |path| ==> U32At(PutPath(path), 1 + 4 * k) == path[k]
  {
    EntriesLength(path);
    forall k | 0 <= k < |path|
      ensures U32At(PutPath(path), 1 + 4 * k) == path[k]
    {
      EntriesAt(path, k);
      NumbersInside(PutPath(path), 1);
      assert PutPath(path)[1..] == PutEntries(path);
    }
  }

  lemma {:induction false} EntriesTaken(n: nat, s: Bytes)
    ensures TakeEntries(n, s).Some? <==> |s| >= 4 * n
    ensures TakeEntries(n, s).Some? ==>
              && TakeEntries(n, s).value.rest == s[4 * n..]
              && forall k :: 0 <= k < n ==> TakeEntries(n, s).value.value[k] == U32At(s, 4 * k)
  {
    if n > 0 {
      EntriesTaken(n - 1, s);
      if |s| >= 4 * n - 4 {
        var rest := s[4 * n - 4..];
        NumbersAt(rest);
        NumbersInside(s, 4 * n - 4);
        if |s| >= 4 * n {
          assert rest[4..] == s[4 * n..];
        }
      }
    }
  }

  /** A path has one to ten entries, and as many are read as the first byte says. */
  lemma PathTaken(s: Bytes)
    requires |s| >= 1
    ensures var n: nat := s[0]; TakePath(s).Some? <==> 1 <= n <= 10 && |s| >= 1 + 4 * n
    ensures var n: nat := s[0];
            TakePath(s).Some? ==>
              && |TakePath(s).value.value| == n && TakePath(s).value.rest == s[1 + 4 * n..]
              && forall k :: 0 <= k < n ==> TakePath(s).value.value[k] == U32At(s, 1 + 4 * k)
  {
    var n: nat := s[0];
    EntriesTaken(n, s[1..]);
    if |s| >= 1 + 4 * n {
      assert s[1..][4 * n..] == s[1 + 4 * n..];
      forall k | 0 <= k < n
        ensures U32At(s[1..], 4 * k) == U32At(s, 1 + 4 * k)
      {
      }
    }
  }

  /** Up to 127 bytes can stand behind their length. */
  lemma VecTaken(s: Bytes)
    requires |s| >= 1
    ensures var n: nat := s[0];
            TakeVec(s) == if n < 128 && |s| >= 1 + n then Some(Taken(s[1..1 + n], s[1 + n..])) else None
  {
    var n: nat := s[0];
    if |s| >= 1 + n {
      assert s[1..][..n] == s[1..1 + n] && s[1..][n..] == s[1 + n..];
    }
  }
}
