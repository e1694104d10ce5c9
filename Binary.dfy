/**
  Fixed-width integers of the .NET runtime and their byte encodings.

  Two's complement is written out explicitly: Dafny's integers are unbounded and its
  `%` is Euclidean (the remainder is never negative), so `v % 0x1_0000_0000` is the
  unsigned 32-bit pattern of a negative `v`.
 */
module Binary {

  type uint8 = x: int | 0 <= x < 0x100
  type Bytes = seq<uint8>
  type int16 = x: int | -0x8000 <= x < 0x8000
  type int32 = x: int | -0x8000_0000 <= x < 0x8000_0000
  type uint32 = x: int | 0 <= x < 0x1_0000_0000

  /** `(byte) c`: a char cast to a byte keeps the low 8 bits of its code point. */
  function CharToByte(c: char): uint8 {
    (c as int) % 0x100
  }

  /** The bytes of a string literal. For ASCII text this is also its UTF-8 encoding. */
  function Ascii(s: string): (r: Bytes)
    ensures |r| == |s|
  {
    seq(|s|, i requires 0 <= i < |s| => CharToByte(s[i]))
  }

  /** An unchecked `(int)` cast of a wider integer: keeps the low 32 bits. */
  function WrapInt32(x: int): (r: int32)
    ensures -0x8000_0000 <= x < 0x8000_0000 ==> r == x
    ensures (x - r) % 0x1_0000_0000 == 0
  {
    var m := x % 0x1_0000_0000;
    if m < 0x8000_0000 then m else m - 0x1_0000_0000
  }

  /** An unchecked `(short)` cast: keeps the low 16 bits. */
  function WrapInt16(x: int): (r: int16)
    ensures -0x8000 <= x < 0x8000 ==> r == x
    ensures (x - r) % 0x1_0000 == 0
  {
    var m := x % 0x1_0000;
    if m < 0x8000 then m else m - 0x1_0000
  }

  /** An unchecked `(uint)` cast: keeps the low 32 bits. */
  function WrapUInt32(x: int): (r: uint32)
    ensures 0 <= x < 0x1_0000_0000 ==> r == x
    ensures (x - r) % 0x1_0000_0000 == 0
  {
    x % 0x1_0000_0000
  }

  // ---------------------------------------------------------------------------
  // Big-endian encodings (most significant byte first)
  // ---------------------------------------------------------------------------

  function UInt16BE(u: int): (r: Bytes)
    requires 0 <= u < 0x1_0000
    ensures |r| == 2
  {
    [u / 0x100, u % 0x100]
  }

  function UInt32BE(u: uint32): (r: Bytes)
    ensures |r| == 4
  {
    var q1 := u / 0x100;
    var q2 := q1 / 0x100;
    [q2 / 0x100, q2 % 0x100, q1 % 0x100, u % 0x100]
  }

  /** The two's-complement bytes of a short, most significant first. */
  function Int16BE(v: int16): (r: Bytes)
    ensures |r| == 2
  {
    UInt16BE(v % 0x1_0000)
  }

  /** The two's-complement bytes of an int, most significant first. */
  function Int32BE(v: int32): (r: Bytes)
    ensures |r| == 4
  {
    UInt32BE(v % 0x1_0000_0000)
  }

  /** The unsigned value of the 4 bytes at offset i, read most significant first. */
  function UInt32At(s: Bytes, i: nat): uint32
    requires i + 4 <= |s|
  {
    s[i] as int * 0x100_0000 + s[i + 1] as int * 0x1_0000 + s[i + 2] as int * 0x100 + s[i + 3]
  }

  /** The int whose big-endian two's-complement bytes are at offset i. */
  function Int32At(s: Bytes, i: nat): int32
    requires i + 4 <= |s|
  {
    WrapInt32(UInt32At(s, i))
  }

  /** The short whose big-endian two's-complement bytes are at offset i. */
  function Int16At(s: Bytes, i: nat): int16
    requires i + 2 <= |s|
  {
    WrapInt16(s[i] as int * 0x100 + s[i + 1])
  }

  /** The int whose little-endian two's-complement bytes are at offset i. */
  function Int32AtLE(s: Bytes, i: nat): int32
    requires i + 4 <= |s|
  {
    WrapInt32(s[i] as int + s[i + 1] as int * 0x100 + s[i + 2] as int * 0x1_0000 + s[i + 3] as int * 0x100_0000)
  }

  // ---------------------------------------------------------------------------
  // Byte order of the host (BitConverter)
  // ---------------------------------------------------------------------------

  function Reversed(s: Bytes): Bytes {
    seq(|s|, i requires 0 <= i < |s| => s[|s| - 1 - i])
  }

  /** `BitConverter.GetBytes`: the bytes of a value in host order, given its big-endian bytes. */
  function HostOrder(hostLittleEndian: bool, bigEndian: Bytes): Bytes {
    if hostLittleEndian then Reversed(bigEndian) else bigEndian
  }

  /** `BitConverter.ToInt32(s, i)`: reads the 4 bytes at offset i in host order. */
  function HostInt32At(hostLittleEndian: bool, s: Bytes, i: nat): int32
    requires i + 4 <= |s|
  {
    if hostLittleEndian then Int32AtLE(s, i) else Int32At(s, i)
  }

  /** `Array.Reverse(a, index, count)` on the contents of an array. */
  function ReverseRange(s: Bytes, index: nat, count: nat): (r: Bytes)
    requires index + count <= |s|
    ensures |r| == |s|
  {
    s[..index] + Reversed(s[index..index + count]) + s[index + count..]
  }

  // ---------------------------------------------------------------------------
  // Properties
  // ---------------------------------------------------------------------------

  lemma ReversedInvolution(s: Bytes)
    ensures Reversed(Reversed(s)) == s
  {
  }

  /** Reading the big-endian encoding of an unsigned int back gives the value. */
  lemma UInt32RoundTrip(u: uint32)
    ensures UInt32At(UInt32BE(u), 0) == u
  {
    var q1 := u / 0x100;
    var q2 := q1 / 0x100;
    assert u == q1 * 0x100 + u % 0x100;
    assert q1 == q2 * 0x100 + q1 % 0x100;
    assert q2 == (q2 / 0x100) * 0x100 + q2 % 0x100;
  }

  /** Encoding the 4 bytes read at offset i reproduces them. */
  lemma UInt32BEOfRead(s: Bytes, i: nat)
    requires i + 4 <= |s|
    ensures UInt32BE(UInt32At(s, i)) == s[i..i + 4]
  {
    var u := UInt32At(s, i);
    var q1: int := s[i] as int * 0x1_0000 + s[i + 1] as int * 0x100 + s[i + 2];
    var q2: int := s[i] as int * 0x100 + s[i + 1];
    assert u == q1 * 0x100 + s[i + 3];
    assert u / 0x100 == q1 && u % 0x100 == s[i + 3];
    assert q1 == q2 * 0x100 + s[i + 2];
    assert q1 / 0x100 == q2 && q1 % 0x100 == s[i + 2];
    assert q2 / 0x100 == s[i] && q2 % 0x100 == s[i + 1];
  }

  /** The big-endian two's-complement encoding of an int decodes back to it. */
  lemma Int32RoundTrip(v: int32)
    ensures Int32At(Int32BE(v), 0) == v
  {
    UInt32RoundTrip(v % 0x1_0000_0000);
  }

  /** The big-endian two's-complement encoding of a short decodes back to it. */
  lemma Int16RoundTrip(v: int16)
    ensures Int16At(Int16BE(v), 0) == v
  {
  }

  /** Two ints with the same encoding are equal. */
  lemma Int32BEInjective(v: int32, w: int32)
    requires Int32BE(v) == Int32BE(w)
    ensures v == w
  {
    Int32RoundTrip(v);
    Int32RoundTrip(w);
  }

  /** An unsigned value below 2^31 has the same bytes as the int with that value. */
  lemma UInt32BEAsInt32(u: uint32)
    requires u < 0x8000_0000
    ensures UInt32BE(u) == Int32BE(u)
  {
  }

  /**
    Reversing a 4-byte range in place and then reading it in little-endian host order
    gives the big-endian value of the original bytes; on a big-endian host no
    reversal happens and the read is big-endian already.
   */
  lemma HostReadAfterReversal(hostLittleEndian: bool, s: Bytes, i: nat)
    requires i + 4 <= |s|
    ensures var t := if hostLittleEndian then ReverseRange(s, i, 4) else s;
            HostInt32At(hostLittleEndian, t, i) == Int32At(s, i)
  {
    if hostLittleEndian {
      var t := ReverseRange(s, i, 4);
      assert t[i] == s[i + 3] && t[i + 1] == s[i + 2] && t[i + 2] == s[i + 1] && t[i + 3] == s[i];
    }
  }

  /** Concatenation regroups freely; stated once so that proofs need not rediscover it. */
  lemma ConcatAssociative<T>(a: seq<T>, b: seq<T>, c: seq<T>)
    ensures a + b + c == a + (b + c)
  {
  }

  /** Regrouping a prefix, two elements, a run and a last element. */
  lemma RegroupReads<T>(p: seq<T>, x: T, y: T, run: seq<T>, last: T)
    ensures p + [x, y] + run + [last] == p + ([x] + ([y] + (run + [last])))
    ensures [] + [x, y] + run + [last] == [x] + ([y] + (run + [last]))
  {
  }

  /** Appending an element leaves the earlier positions as they were. */
  lemma SnocIndex<T>(q: seq<T>, x: T, i: nat)
    requires i < |q|
    ensures (q + [x])[i] == q[i]
  {
  }

  /** The head and the tail of a concatenation whose left part is not empty. */
  lemma ConcatHeadTail<T>(p: seq<T>, q: seq<T>)
    requires |p| > 0
    ensures (p + q)[0] == p[0] && (p + q)[1..] == p[1..] + q
  {
  }

  /** A host-order read depends only on the four bytes it reads. */
  lemma HostInt32AtSameBytes(hostLittleEndian: bool, s: Bytes, t: Bytes, i: nat)
    requires i + 4 <= |s| && i + 4 <= |t|
    requires s[i] == t[i] && s[i + 1] == t[i + 1] && s[i + 2] == t[i + 2] && s[i + 3] == t[i + 3]
    ensures HostInt32At(hostLittleEndian, s, i) == HostInt32At(hostLittleEndian, t, i)
  {
  }

  /** Reversing a range leaves the bytes outside it unchanged. */
  lemma ReverseRangeOutside(s: Bytes, index: nat, count: nat, k: nat)
    requires index + count <= |s| && k < |s|
    requires k < index || index + count <= k
    ensures ReverseRange(s, index, count)[k] == s[k]
  {
    var r := ReverseRange(s, index, count);
    if k < index {
      assert r[k] == s[..index][k];
    } else {
      assert r[k] == s[index + count..][k - index - count];
    }
  }

  /** Reversing a range moves the byte at offset k inside it to the mirrored offset. */
  lemma ReverseRangeInside(s: Bytes, index: nat, count: nat, k: nat)
    requires index <= k < index + count <= |s|
    ensures ReverseRange(s, index, count)[k] == s[2 * index + count - 1 - k]
  {
    var sub := s[index..index + count];
    assert ReverseRange(s, index, count)[k] == Reversed(sub)[k - index];
  }

  /** The 4 bytes at offset i hold v, most significant first, exactly when reading them gives v. */
  lemma Int32AtIff(s: Bytes, i: nat, v: int32)
    requires i + 4 <= |s|
    ensures Int32At(s, i) == v <==> s[i..i + 4] == Int32BE(v)
  {
    var u := UInt32At(s, i);
    if Int32At(s, i) == v {
      UInt32BEOfRead(s, i);
      assert v % 0x1_0000_0000 == u;
    }
    if s[i..i + 4] == Int32BE(v) {
      Int32RoundTrip(v);
      assert Int32At(s, i) == Int32At(s[i..i + 4], 0);
    }
  }

  /** The 4 bytes at offset i are the unsigned encoding of u exactly when reading them gives u. */
  lemma UInt32AtIff(s: Bytes, i: nat, u: uint32)
    requires i + 4 <= |s|
    ensures UInt32At(s, i) == u <==> s[i..i + 4] == UInt32BE(u)
  {
    UInt32BEOfRead(s, i);
    if s[i..i + 4] == UInt32BE(u) {
      UInt32RoundTrip(u);
      assert UInt32At(s, i) == UInt32At(s[i..i + 4], 0);
    }
  }

  /** The 2 bytes at offset i are the encoding of a short v exactly when reading them gives v. */
  lemma Int16AtIff(s: Bytes, i: nat, v: int16)
    requires i + 2 <= |s|
    ensures Int16At(s, i) == v <==> s[i..i + 2] == Int16BE(v)
  {
    var u: int := s[i] as int * 0x100 + s[i + 1];
    if Int16At(s, i) == v {
      assert v % 0x1_0000 == u;
      assert u / 0x100 == s[i] && u % 0x100 == s[i + 1];
    }
    if s[i..i + 2] == Int16BE(v) {
      Int16RoundTrip(v);
      assert Int16At(s, i) == Int16At(s[i..i + 2], 0);
    }
  }
}
