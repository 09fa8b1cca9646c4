/**
 The cursor functions of nimiq_utils.c. Pointers are offsets into the memory that was received, so that a part that was
 read can be written to later.
 */
module Cursors {
  import opened Machine
  import opened Wire

  datatype Pointer = Null | At(offset: nat)

  /** The `length` bytes that a pointer points to. */
  function Slice(memory: array<u8>, p: Pointer, length: nat): Bytes
    requires p.At? ==> p.offset + length <= memory.Length
    reads memory
  {
    if p.Null? then [] else memory[p.offset..p.offset + length]
  }

  /** A pointer to the next unread byte, and the number of bytes that may still be read. */
  class Cursor {
    const memory: array<u8>
    var buffer: Pointer
    var length: u16

    ghost predicate Valid()
      reads this
    {
      if buffer.Null? then length == 0 else buffer.offset + length <= memory.Length
    }

    ghost function Rest(): (s: Bytes)
      requires Valid()
      reads this, memory
      ensures |s| == length
    {
      Slice(memory, buffer, length)
    }

    /** Where the readable bytes end; reading does not change it. */
    ghost function End(): nat
      reads this
    {
      if buffer.Null? then 0 else buffer.offset + length
    }

    constructor (memory: array<u8>, buffer: Pointer, length: u16)
      requires if buffer.Null? then length == 0 else buffer.offset + length <= memory.Length
      ensures Valid() && this.memory == memory && this.buffer == buffer && this.length == length
      ensures Rest() == Slice(memory, buffer, length)
    {
      this.memory, this.buffer, this.length := memory, buffer, length;
    }

    /** Hands out a pointer to the next `n` bytes, without a copy, and steps over them. */
    method ReadSubBuffer(n: u16) returns (ok: bool, sub: Pointer)
      requires Valid()
      modifies this
      ensures Valid()
      ensures ok <==> n <= old(length)
      ensures sub == if ok && n > 0 then old(buffer) else Null
      ensures End() == old(End()) && (ok && n > 0 ==> old(buffer).At? && buffer.At?)
      ensures ok ==> (sub.At? ==> sub.offset + n <= memory.Length)
                     && TakeBytes(n, old(Rest())) == Some(Taken(Slice(memory, sub, n), Rest()))
      ensures !ok || n == 0 ==> unchanged(this)
    {
      if n == 0 {
        assert Rest()[..0] == [] && Rest()[0..] == Rest();
        return true, Null;
      }
      if buffer.Null? || length < n {
        return false, Null;
      }
      ghost var start, end := buffer.offset, buffer.offset + length;
      ghost var orig := memory[start..end];
      sub := buffer;
      buffer := At(buffer.offset + n);
      length := length - n;
      ok := true;
      assert orig == memory[start..end];
      assert orig[..n] == memory[start..start + n] && orig[n..] == memory[start + n..end];
    }

    method ReadU8() returns (ok: bool, value: u8)
      requires Valid()
      modifies this
      ensures Valid()
      ensures ok <==> TakeU8(old(Rest())).Some?
      ensures ok ==> TakeU8(old(Rest())) == Some(Taken(value, Rest()))
      ensures End() == old(End()) && (ok ==> buffer.At?)
    {
      var sub;
      ok, sub := ReadSubBuffer(1);
      value := if ok then memory[sub.offset] else 0;
    }

    method ReadU16() returns (ok: bool, value: u16)
      requires Valid()
      modifies this
      ensures Valid()
      ensures ok <==> TakeU16(old(Rest())).Some?
      ensures ok ==> TakeU16(old(Rest())) == Some(Taken(value, Rest()))
      ensures End() == old(End()) && (ok ==> buffer.At?)
    {
      var a: u8, b: u8 := 0, 0;
      value := 0;
      ghost var s := Rest();
      ok, a := ReadU8();
      if ok {
        ok, b := ReadU8();
        if ok {
          value := a * 0x100 + b;
          SmallPowers();
          TwoHalves(s, 1);
        }
      }
    }

    method ReadU32() returns (ok: bool, value: u32)
      requires Valid()
      modifies this
      ensures Valid()
      ensures ok <==> TakeU32(old(Rest())).Some?
      ensures ok ==> TakeU32(old(Rest())) == Some(Taken(value, Rest()))
      ensures End() == old(End()) && (ok ==> buffer.At?)
    {
      var a: u16, b: u16 := 0, 0;
      value := 0;
      ghost var s := Rest();
      ok, a := ReadU16();
      if ok {
        ok, b := ReadU16();
        if ok {
          value := a * 0x1_0000 + b;
          SmallPowers();
          TwoHalves(s, 2);
        }
      }
    }

    method ReadU64() returns (ok: bool, value: u64)
      requires Valid()
      modifies this
      ensures Valid()
      ensures ok <==> TakeU64(old(Rest())).Some?
      ensures ok ==> TakeU64(old(Rest())) == Some(Taken(value, Rest()))
      ensures End() == old(End())
    {
      var a: u32, b: u32 := 0, 0;
      value := 0;
      ghost var s := Rest();
      ok, a := ReadU32();
      if ok {
        ok, b := ReadU32();
        if ok {
          value := a * 0x1_0000_0000 + b;
          SmallPowers();
          TwoHalves(s, 4);
        }
      }
    }

    /** Any byte but zero is true. */
    method ReadBool() returns (ok: bool, value: bool)
      requires Valid()
      modifies this
      ensures Valid()
      ensures ok <==> TakeU8(old(Rest())).Some?
      ensures ok ==> TakeU8(old(Rest())).value.rest == Rest() && value == (TakeU8(old(Rest())).value.value != 0)
      ensures End() == old(End())
    {
      var byte;
      ok, byte := ReadU8();
      value := byte != 0;
    }

    /** A pointer to an address and the address itself. */
    method ReadAddress() returns (ok: bool, address: Address)
      requires Valid()
      modifies this
      ensures Valid()
      ensures ok <==> TakeAddress(old(Rest())).Some?
      ensures ok ==> TakeAddress(old(Rest())) == Some(Taken(address, Rest()))
      ensures End() == old(End())
    {
      var sub;
      ok, sub := ReadSubBuffer(20);
      address := seq(20, _ => 0);
      if ok {
        address := Slice(memory, sub, 20);
      }
    }

    /** A varint of at most seven bits, then as many bytes. */
    method ReadSerdeVecU8() returns (ok: bool, data: Pointer, dataLength: u16)
      requires Valid()
      modifies this
      ensures Valid()
      ensures ok <==> TakeVec(old(Rest())).Some?
      ensures ok ==> (data.At? ==> data.offset + dataLength <= memory.Length) && (data.Null? ==> dataLength == 0)
                     && TakeVec(old(Rest())) == Some(Taken(Slice(memory, data, dataLength), Rest()))
    {
      var byte;
      data, dataLength := Null, 0;
      ok, byte := ReadSerdeUvarint(16);
      if ok {
        ok, data := ReadSubBuffer(byte);
        dataLength := byte;
      }
    }

    /** Only single-byte varints are supported, and no types of less than seven bits. */
    method ReadSerdeUvarint(maxBits: u8) returns (ok: bool, value: u8)
      requires Valid()
      modifies this
      ensures Valid()
      ensures ok <==> maxBits >= 7 && TakeU8(old(Rest())).Some? && TakeU8(old(Rest())).value.value < 0x80
      ensures ok ==> TakeU8(old(Rest())) == Some(Taken(value, Rest()))
    {
      value := 0;
      if maxBits < 7 {
        return false, 0;
      }
      ok, value := ReadU8();
      if ok && value >= 0x80 {
        ok := false;
      }
    }

    /** A path of one to ten entries. */
    method ReadBip32Path() returns (ok: bool, path: seq<u32>)
      requires Valid()
      modifies this
      ensures Valid()
      ensures ok <==> TakePath(old(Rest())).Some?
      ensures ok ==> TakePath(old(Rest())) == Some(Taken(path, Rest()))
      ensures End() == old(End()) && (ok ==> buffer.At?)
    {
      hide TakeEntries, TakeU8, Slice;
      var pathLength;
      path := [];
      ok, pathLength := ReadU8();
      if !ok || pathLength < 1 || pathLength > MAX_BIP32_PATH_LENGTH {
        return false, [];
      }
      ok, path := ReadEntries(pathLength);
    }

    /** The entries of a path. */
    method ReadEntries(n: u8) returns (ok: bool, path: seq<u32>)
      requires Valid()
      modifies this
      ensures Valid() && End() == old(End())
      ensures ok <==> TakeEntries(n, old(Rest())).Some?
      ensures ok ==> TakeEntries(n, old(Rest())) == Some(Taken(path, Rest()))
      ensures ok && n > 0 ==> buffer.At?
    {
      hide TakeU32, Slice;
      path := [];
      ghost var entries := Rest();
      for i := 0 to n
        invariant Valid() && End() == old(End()) && (i > 0 ==> buffer.At?)
        invariant TakeEntries(i, entries) == Some(Taken(path, Rest()))
      {
        var entry;
        ok, entry := ReadU32();
        if !ok {
          EntriesMissing(i, n, entries);
          return false, [];
        }
        path := path + [entry];
      }
      ok := true;
    }

    lemma {:induction false} EntriesMissing(i: nat, n: nat, s: Bytes)
      requires i < n && TakeEntries(i + 1, s).None?
      ensures TakeEntries(n, s).None?
    {
      if i + 1 < n {
        EntriesMissing(i, n - 1, s);
      }
    }
  }
}
