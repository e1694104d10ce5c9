/**
  The in-memory output buffers that every encoder writes into
  (Util/EndianAwareMemoryStream.cs and Util/WireOutputMemoryStream.cs), and the two
  .NET array routines they use.
 */
module Util {
  import opened Binary

  /** `Array.Reverse(a, index, length)`: reverses a range of an array in place. */
  method ArrayReverse(a: array<uint8>, index: nat, length: nat)
    requires index + length <= a.Length
    modifies a
    ensures a[..] == ReverseRange(old(a[..]), index, length)
  {
    ghost var before := a[..];
    var i := 0;
    while i < length / 2
      invariant 0 <= i <= length / 2
      invariant a.Length == |before|
      invariant forall k :: index <= k < index + i ==> a[k] == before[2 * index + length - 1 - k]
      invariant forall k :: index + length - i <= k < index + length ==> a[k] == before[2 * index + length - 1 - k]
      invariant forall k :: 0 <= k < a.Length && !(index <= k < index + i) && !(index + length - i <= k < index + length) ==>
                  a[k] == before[k]
    {
      var lo, hi := index + i, index + length - 1 - i;
      a[lo], a[hi] := a[hi], a[lo];
      i := i + 1;
    }
    forall k | 0 <= k < a.Length
      ensures a[k] == ReverseRange(before, index, length)[k]
    {
      if k < index || k >= index + length {
        ReverseRangeOutside(before, index, length, k);
      } else {
        ReverseRangeInside(before, index, length, k);
      }
    }
  }

  /** `BitConverter.GetBytes(value)`: a fresh array holding the value's bytes in host order. */
  method GetBytes(hostIsLittleEndian: bool, bigEndian: Bytes) returns (a: array<uint8>)
    ensures fresh(a) && a[..] == HostOrder(hostIsLittleEndian, bigEndian)
  {
    var s := HostOrder(hostIsLittleEndian, bigEndian);
    a := new uint8[|s|](i requires 0 <= i < |s| => s[i]);
  }

  /**
    What WriteEndianAware appends for a value given in host order: the bytes are
    reversed exactly when the host order differs from the stream's order. Whatever the
    host, the result is the value in the stream's order.
   */
  lemma {:induction false} StreamOrderIsHostIndependent(hostIsLittleEndian: bool, streamIsLittleEndian: bool, bigEndian: Bytes)
    ensures var hostBytes := HostOrder(hostIsLittleEndian, bigEndian);
            (if hostIsLittleEndian != streamIsLittleEndian then Reversed(hostBytes) else hostBytes)
            == (if streamIsLittleEndian then Reversed(bigEndian) else bigEndian)
  {
    if hostIsLittleEndian {
      ReversedInvolution(bigEndian);
    }
  }

  /** A value's bytes in a stream's order, given its big-endian bytes. */
  function StreamOrder(streamIsLittleEndian: bool, bigEndian: Bytes): (r: Bytes)
    ensures |r| == |bigEndian|
    ensures !streamIsLittleEndian ==> r == bigEndian
  {
    if streamIsLittleEndian then Reversed(bigEndian) else bigEndian
  }

  class EndianAwareMemoryStream {
    /** Whether integers are written least significant byte first; fixed by the constructor. */
    const IsLittleEndian: bool
    /** `BitConverter.IsLittleEndian`: the byte order of the machine. */
    const hostIsLittleEndian: bool
    /** The bytes written so far: the MemoryStream's buffer up to its length. */
    var contents: Bytes

    constructor (writeLittleEndian: bool, hostIsLittleEndian: bool)
      ensures IsLittleEndian == writeLittleEndian && this.hostIsLittleEndian == hostIsLittleEndian
      ensures contents == []
    {
      IsLittleEndian := writeLittleEndian;
      this.hostIsLittleEndian := hostIsLittleEndian;
      contents := [];
    }

    /** `Write(byte)`: appends exactly that byte. */
    method WriteByte(b: uint8)
      modifies this
      ensures contents == old(contents) + [b]
    {
      contents := contents + [b];
    }

    /** The inherited `Stream.Write(byte[])`: appends the bytes as they are. */
    method WriteBytes(data: Bytes)
      modifies this
      ensures contents == old(contents) + data
    {
      contents := contents + data;
    }

    /**
      Appends a value given in host order, reversing a copy when the host order is not
      the stream's; the caller's array is left as it was.
     */
    method WriteEndianAware(value: array<uint8>)
      modifies this
      ensures value[..] == old(value[..])
      ensures contents == old(contents) + (if hostIsLittleEndian != IsLittleEndian then Reversed(value[..]) else value[..])
    {
      var val := new uint8[value.Length];
      // Array.Copy
      var i := 0;
      while i < value.Length
        modifies val
        invariant 0 <= i <= value.Length
        invariant val[..i] == value[..i]
      {
        val[i] := value[i];
        i := i + 1;
      }
      assert val[..] == value[..];
      if hostIsLittleEndian != IsLittleEndian {
        ghost var copied := val[..];
        ArrayReverse(val, 0, val.Length);
        assert copied[0..|copied|] == copied;
        assert val[..] == Reversed(value[..]);
      }
      contents := contents + val[..];
    }

    /** `Write(short)`: appends the 2 bytes of the value in the stream's order. */
    method WriteInt16(value: int16)
      modifies this
      ensures contents == old(contents) + StreamOrder(IsLittleEndian, Int16BE(value))
    {
      var output := GetBytes(hostIsLittleEndian, Int16BE(value));
      WriteEndianAware(output);
      StreamOrderIsHostIndependent(hostIsLittleEndian, IsLittleEndian, Int16BE(value));
    }

    /** `Write(int)`: appends the 4 bytes of the value in the stream's order. */
    method WriteInt32(value: int32)
      modifies this
      ensures contents == old(contents) + StreamOrder(IsLittleEndian, Int32BE(value))
    {
      var output := GetBytes(hostIsLittleEndian, Int32BE(value));
      WriteEndianAware(output);
      StreamOrderIsHostIndependent(hostIsLittleEndian, IsLittleEndian, Int32BE(value));
    }

    /** `Write(uint)`: appends the 4 bytes of the value in the stream's order. */
    method WriteUInt32(value: uint32)
      modifies this
      ensures contents == old(contents) + StreamOrder(IsLittleEndian, UInt32BE(value))
    {
      var output := GetBytes(hostIsLittleEndian, UInt32BE(value));
      WriteEndianAware(output);
      StreamOrderIsHostIndependent(hostIsLittleEndian, IsLittleEndian, UInt32BE(value));
    }
  }

  /**
    The stream every message is built in: an EndianAwareMemoryStream that writes
    integers most significant byte first. The base-class part is the field `stream`.
   */
  class WireOutputMemoryStream {
    const stream: EndianAwareMemoryStream

    constructor (hostIsLittleEndian: bool)
      ensures fresh(stream) && !stream.IsLittleEndian && stream.hostIsLittleEndian == hostIsLittleEndian
      ensures stream.contents == []
    {
      stream := new EndianAwareMemoryStream(false, hostIsLittleEndian);
    }

    /** Appends one zero byte. */
    method WriteZeroByte()
      modifies stream
      ensures stream.contents == old(stream.contents) + [0]
    {
      stream.WriteByte(0);
    }
  }
}
