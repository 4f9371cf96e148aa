/**
 * Bit stream I/O: the writer (obitstream) that appends bits most-significant
 * first to a growable byte buffer, and the reader (ibitstream) that takes them
 * back out of a byte buffer in the same order.
 */
module BitStream {
  import opened Bits

  /**
   * Setting the next free bit of a byte whose first bits are part and whose
   * z + 1 remaining bits are still zero.
   */
  lemma SetNextBit(x: byte, part: seq<bool>, bit: bool, z: nat)
    requires |part| + z + 1 == 8 && ToBits(x as nat, 8) == part + Zeros(z + 1)
    ensures x as int + (if bit then Pow2(z) else 0) < 256
    ensures ToBits(x as nat + (if bit then Pow2(z) else 0), 8) == part + [bit] + Zeros(z)
  {
    var target := part + [bit] + Zeros(z);
    assert Pow2(8) == 256 by {
      Pow2Values();
    }
    assert x as nat == FromBits(part + Zeros(z + 1)) by {
      FromToBitsSmall(x as nat, 8);
    }
    SetNextBitValue(x as nat, part, bit, z);
    ToFromBits(target);
  }

  lemma SetNextBitValue(x: nat, part: seq<bool>, bit: bool, z: nat)
    requires x == FromBits(part + Zeros(z + 1))
    ensures FromBits(part + [bit] + Zeros(z)) == x + (if bit then Pow2(z) else 0)
  {
    ZerosCons(z);
    AppendAssoc(part, [false], Zeros(z));
    PadBit(part, bit, z);
  }

  /** Setting the bit that has z zeros after it adds 2^z. */
  lemma {:induction false} PadBit(part: seq<bool>, bit: bool, z: nat)
    ensures FromBits(part + [bit] + Zeros(z)) == FromBits(part + [false] + Zeros(z)) + (if bit then Pow2(z) else 0)
    decreases z
  {
    if z == 0 {
      assert part + [bit] + Zeros(0) == part + [bit];
      assert part + [false] + Zeros(0) == part + [false];
      assert (part + [bit])[..|part|] == part;
      assert (part + [false])[..|part|] == part;
    } else {
      PadBit(part, bit, z - 1);
      var a, c := part + [bit] + Zeros(z - 1), part + [false] + Zeros(z - 1);
      ZerosSnoc(z - 1);
      AppendAssoc(part + [bit], Zeros(z - 1), [false]);
      AppendAssoc(part + [false], Zeros(z - 1), [false]);
      assert (a + [false])[..|a|] == a;
      assert (c + [false])[..|c|] == c;
    }
  }

  /**
   * The writer's representation invariant over plain values: the bits of
   * the bytes it pushed are the written bits followed by zeros up to the end
   * of the last byte, and bitOffset is the bit of that byte that comes next.
   */
  ghost predicate Holds(bytes: seq<byte>, bitOffset: int, written: seq<bool>)
  {
    0 <= bitOffset <= 7 &&
    8 * |bytes| == |written| + bitOffset + 1 &&
    Unpack(bytes) == written + Zeros(bitOffset + 1)
  }

  /**
   * Or-ing 1 << bitOffset into the last byte when bit is set (which is then
   * an addition, since that bit is still zero) stores bit after the written ones.
   */
  lemma StoreBit(bytes: seq<byte>, bitOffset: int, written: seq<bool>, bit: bool, x: int)
    requires Holds(bytes, bitOffset, written)
    requires x == bytes[|bytes| - 1] as int + (if bit then Pow2(bitOffset) else 0)
    ensures 0 <= x < 256
    ensures Unpack(bytes[|bytes| - 1 := x as byte]) == written + [bit] + Zeros(bitOffset)
  {
    var last := |bytes| - 1;
    var pre, y := bytes[..last], bytes[last];
    var m := 8 * last;
    var part := written[m..];
    assert bytes == pre + [y];
    UnpackAppend(pre, y);
    assert Unpack(pre) == written[..m] by {
      assert (written + Zeros(bitOffset + 1))[..m] == written[..m];
    }
    assert ToBits(y as nat, 8) == part + Zeros(bitOffset + 1) by {
      assert (written + Zeros(bitOffset + 1))[m..] == part + Zeros(bitOffset + 1);
    }
    SetNextBit(y, part, bit, bitOffset);
    assert bytes[last := x as byte] == pre + [x as byte];
    UnpackAppend(pre, x as byte);
    assert written == written[..m] + part;
  }

  /** What the whole vector holds when the writer's own bytes satisfy Holds. */
  lemma Contents(prefix: seq<byte>, bytes: seq<byte>, bitOffset: int, written: seq<bool>)
    requires Holds(bytes, bitOffset, written)
    ensures |prefix + bytes| == |prefix| + 1 + |written| / 8
    ensures bitOffset + 1 == 8 - |written| % 8
    ensures Unpack(prefix + bytes) == Unpack(prefix) + written + Zeros(bitOffset + 1)
  {
    UnpackConcat(prefix, bytes);
    DivModUnique(|written|, 8, |bytes| - 1, 7 - bitOffset);
  }

  /**
   * obitstream. It appends to a byte vector it does not own: prefix is what
   * the vector held before, and bytes what the writer pushed after it, which
   * always ends in the byte being filled; bitOffset is the next free bit of
   * that byte, running from 7 down to 0.
   */
  class BitWriter {
    const prefix: seq<byte>
    var bytes: seq<byte>
    var bitOffset: int
    /** Every bit written so far, in order. */
    ghost var written: seq<bool>

    ghost predicate Valid()
      reads this
    {
      Holds(bytes, bitOffset, written)
    }

    /** The writer pushes one zero byte onto the vector and starts at its top bit. */
    constructor (vector: seq<byte>)
      ensures Valid() && written == [] && prefix == vector && bytes == [0] && bitOffset == 7
    {
      prefix := vector;
      bytes := [0];
      bitOffset := 7;
      written := [];
      new;
      UnpackAppend([], 0);
      ToBitsZero(8);
    }

    /** write_bit: sets the next bit of the last byte, pushing a fresh byte once it is full. */
    method WriteBit(bit: bool)
      requires Valid()
      modifies this
      ensures Valid() && written == old(written) + [bit]
      ensures bitOffset == if old(bitOffset) == 0 then 7 else old(bitOffset) - 1
    {
      var last := |bytes| - 1;
      var x := bytes[last] as int;
      if bit {
        x := x + Pow2(bitOffset);
      }
      StoreBit(bytes, bitOffset, written, bit, x);
      bytes := bytes[last := x as byte];
      bitOffset := bitOffset - 1;
      written := written + [bit];
      if bitOffset < 0 {
        UnpackAppend(bytes, 0);
        ToBitsZero(8);
        bytes := bytes + [0];
        bitOffset := 7;
      }
    }

    /** write(value, n): the low n bits of value, most-significant first; nothing when n <= 0. */
    method Write(value: u32, n: int)
      requires Valid() && n <= 64
      modifies this
      ensures Valid() && written == old(written) + ToBits(value, if n < 0 then 0 else n)
    {
      var k := n;
      while k > 0
        invariant Valid()
        invariant n <= 0 ==> k == n && written == old(written)
        invariant n > 0 ==> 0 <= k <= n && written == old(written) + ToBits(Shr(value, k), n - k)
      {
        k := k - 1;
        WriteBit(Shr(value, k) % 2 == 1);
        ShrStep(value, k);
        AppendAssoc(old(written), ToBits(Shr(value, k + 1), n - k - 1), [Shr(value, k) % 2 == 1]);
      }
    }

    /**
     * sync(): a 0 bit, then 1 bits until the buffer ends on a byte boundary;
     * at most 8 bits in all.
     */
    method Sync()
      requires Valid()
      modifies this
      ensures Valid() && bitOffset == 7 && |written| % 8 == 0
      ensures |old(written)| < |written| <= |old(written)| + 8
      ensures written == old(written) + [false] + Ones(|written| - |old(written)| - 1)
    {
      ghost var n0 := |written| + 1;
      WriteBit(false);
      ghost var k := 0;
      while bitOffset != 7
        invariant Valid()
        invariant written == old(written) + [false] + Ones(k)
        invariant |written| == n0 + k
        invariant k + (if bitOffset == 7 then 0 else bitOffset + 1) <= 7
        decreases if bitOffset == 7 then 0 else bitOffset + 1
      {
        WriteBit(true);
        assert Ones(k) + [true] == Ones(k + 1);
        AppendAssoc(old(written) + [false], Ones(k), [true]);
        k := k + 1;
      }
      DivModUnique(|written|, 8, |bytes| - 1, 0);
    }

    /** size(): the number of bytes in the vector, including the one being filled. */
    method Size() returns (n: nat)
      requires Valid()
      ensures n == |prefix| + 1 + |written| / 8
    {
      n := |prefix| + |bytes|;
    }

    /**
     * data(): the vector's bytes. After what it held before come the written
     * bits and at least one zero bit, so a reader never runs off the end while
     * fetching eagerly.
     */
    method Data() returns (d: seq<byte>)
      requires Valid()
      ensures Unpack(d) == Unpack(prefix) + written + Zeros(8 - |written| % 8)
      ensures |d| == |prefix| + 1 + |written| / 8
    {
      d := prefix + bytes;
      Contents(prefix, bytes, bitOffset, written);
    }
  }

  /** The bw bits of byte i that end shift bits above its least significant bit. */
  lemma ByteChunk(d: seq<byte>, i: nat, shift: nat, bw: nat, p: nat)
    requires i < |d| && shift + bw <= 8 && p == 8 * i + 8 - shift - bw
    ensures LowBits(Shr(d[i] as nat, shift), bw) == FromBits(Unpack(d)[p..p + bw])
  {
    var x := d[i] as nat;
    var u := Unpack(d);
    ToBitsSlice(x, 8, shift, bw);
    UnpackByte(d, i);
    SliceOfSlice(u, 8 * i, 8 * i + 8, 8 - shift - bw, 8 - shift, p, p + bw);
    LowBitsFromBits(Shr(x, shift), bw);
  }

  /**
   * One pass of read(bc) in terms of the buffer's bits: shifting in bw bits
   * of byte i, taken shift bits above its low end, extends what was read
   * from p0 up to p to what is read from p0 up to p + bw.
   */
  lemma PassStep(d: seq<byte>, p0: nat, p: nat, i: nat, shift: nat, bw: nat, acc: nat)
    requires i < |d| && shift + bw <= 8 && p == 8 * i + 8 - shift - bw && p0 <= p
    requires acc == Val(Unpack(d), p0, p)
    ensures acc * Pow2(bw) + LowBits(Shr(d[i] as nat, shift), bw) == Val(Unpack(d), p0, p + bw)
  {
    ByteChunk(d, i, shift, bw, p);
    ValFromBits(Unpack(d), p, p + bw);
    ValSplit(Unpack(d), p0, p, p + bw);
  }

  /**
   * ibitstream. It fetches the next byte as soon as the current one is used
   * up, so every read must leave at least one bit of the buffer unread.
   */
  class BitReader {
    const data: seq<byte>
    /** Every bit of data, most significant bit of each byte first. */
    ghost const stream: seq<bool>
    /** Index of the next byte to fetch (m_data). */
    var next: nat
    /** The byte being read (m_byte). */
    var current: byte
    /** The next unread bit of current, 7 down to 0 (m_bitOffset). */
    var bitOffset: int

    /** The cursor is inside the buffer and current is the byte it points into. */
    ghost predicate Ready()
      reads this
    {
      1 <= next <= |data| && current == data[next - 1] && 0 <= bitOffset <= 7
    }

    ghost predicate Valid()
      reads this
    {
      Ready() && stream == Unpack(data)
    }

    /** The number of bits read so far: the index in stream of the next bit. */
    ghost function Position(): nat
      reads this
      requires Ready()
      ensures Position() < 8 * |data|
    {
      8 * (next - 1) + 7 - bitOffset
    }

    /** Reading starts at the most significant bit of the first byte. */
    constructor (bytes: seq<byte>)
      requires |bytes| >= 1
      ensures Valid() && data == bytes && Position() == 0
    {
      data := bytes;
      stream := Unpack(bytes);
      current := bytes[0];
      next := 1;
      bitOffset := 7;
    }

    /** A reader over a writer's bytes sees the written bits and at least one zero after them. */
    constructor FromWriter(w: BitWriter)
      requires w.Valid()
      ensures Valid() && data == w.prefix + w.bytes && Position() == 0
      ensures stream == Unpack(w.prefix) + w.written + Zeros(w.bitOffset + 1)
    {
      var d := w.prefix + w.bytes;
      Contents(w.prefix, w.bytes, w.bitOffset, w.written);
      data := d;
      stream := Unpack(d);
      current := d[0];
      next := 1;
      bitOffset := 7;
    }

    /**
     * read(bc): the next bc bits as a number, most-significant first; 0 when
     * bc <= 0. At least one bit must remain unread afterwards.
     */
    method Read(bc: int) returns (r: u32)
      requires Valid() && bc <= 32
      requires bc <= 0 || Position() + bc < |stream|
      modifies this
      ensures Valid() && Position() == old(Position()) + (if bc > 0 then bc else 0)
      ensures r == Val(stream, old(Position()), Position())
    {
      ghost var p0 := Position();
      var result: nat := 0;
      var rem := bc;
      while rem > 0
        invariant Ready() && rem <= bc && (bc > 0 ==> rem >= 0) && (bc <= 0 ==> rem == bc)
        invariant Position() == p0 + (bc - rem)
        invariant result == Val(stream, p0, Position())
      {
        result, rem := ReadPass(p0, result, rem);
      }
      assert result < 0x1_0000_0000 by {
        ValBound(stream, p0, Position());
        Pow2Monotone(Position() - p0, 32);
        Pow2Values();
      }
      r := result;
    }

    /**
     * One pass of the loop in read(bc): the unread bits of the current byte,
     * at most rem of them, are shifted into result, and the next byte is
     * fetched once the current one is used up.
     */
    method ReadPass(ghost p0: nat, result: nat, rem: int) returns (result': nat, rem': int)
      requires Ready() && stream == Unpack(data) && 0 < rem && Position() + rem < 8 * |data|
      requires p0 <= Position() && result == Val(stream, p0, Position())
      modifies this
      ensures Ready() && 0 <= rem' < rem && Position() == old(Position()) + (rem - rem')
      ensures result' == Val(stream, p0, Position())
    {
      ghost var p := Position();
      var bw := bitOffset + 1;
      if bw > rem {
        bw := rem;
      }
      var offset := bitOffset - bw;
      PassStep(data, p0, p, next - 1, offset + 1, bw, result);
      result' := result * Pow2(bw) + LowBits(Shr(current as nat, offset + 1), bw);
      rem' := rem - bw;
      if offset < 0 {
        current, next, bitOffset := data[next], next + 1, 7;
      } else {
        bitOffset := offset;
      }
      assert Position() == p + bw;
    }

    /** operator(): one bit. */
    method ReadBit() returns (bit: bool)
      requires Valid() && Position() + 1 < |stream|
      modifies this
      ensures Valid() && Position() == old(Position()) + 1 && bit == stream[old(Position())]
    {
      var v := Read(1);
      bit := v != 0;
    }
  }
}
