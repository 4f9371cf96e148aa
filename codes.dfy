/**
 * The two number codes of the bit stream: binary (a fixed number of bits)
 * and Elias gamma (a unary bit count followed by the bits below the top one).
 */
module Codes {
  import opened Bits
  import opened BitStream

  // ------------------------------------------------------------------
  // Binary

  /** write_binary: the low n bits of value, most-significant first. */
  method WriteBinary(bits: BitWriter, n: int, value: u32)
    requires bits.Valid() && 0 < n <= 64
    modifies bits
    ensures bits.Valid() && bits.written == old(bits.written) + ToBits(value, n)
  {
    var k := n;
    while k > 0
      invariant bits.Valid() && 0 <= k <= n
      invariant bits.written == old(bits.written) + ToBits(Shr(value, k), n - k)
    {
      k := k - 1;
      bits.WriteBit(Shr(value, k) % 2 == 1);
      ShrStep(value, k);
      AppendAssoc(old(bits.written), ToBits(Shr(value, k + 1), n - k - 1), [Shr(value, k) % 2 == 1]);
    }
  }

  /** read_binary: the next n bits as a number. */
  method ReadBinary(bits: BitReader, n: int) returns (v: u32)
    requires bits.Valid() && 0 < n <= 32 && bits.Position() + n < |bits.stream|
    modifies bits
    ensures bits.Valid() && bits.Position() == old(bits.Position()) + n
    ensures v == Val(bits.stream, old(bits.Position()), bits.Position())
  {
    v := bits.Read(n);
  }

  /** Reading n bits back after the low n bits of v were written gives v modulo 2^n. */
  lemma BinaryRoundTrip(pre: seq<bool>, v: nat, n: nat, post: seq<bool>)
    ensures Val(pre + ToBits(v, n) + post, |pre|, |pre| + n) == v % Pow2(n)
  {
    ValEmbedded(pre, ToBits(v, n), post);
    FromToBits(v, n);
  }

  // ------------------------------------------------------------------
  // Gamma

  /**
   * The gamma code of v >= 1: with e = floor(log2 v), e one bits, a zero
   * bit, then the e bits of v below its top bit.
   */
  function GammaCode(v: nat): (s: seq<bool>)
    requires v >= 1
    ensures |s| == 2 * BitLength(v) - 1
  {
    var e := BitLength(v) - 1;
    Ones(e) + [false] + ToBits(v, e)
  }

  /** The number of one bits in s from index p on, up to the first zero or the end. */
  function OnesFrom(s: seq<bool>, p: nat): (n: nat)
    requires p <= |s|
    ensures p + n <= |s| && (p + n < |s| ==> !s[p + n])
    decreases |s| - p
  {
    if p == |s| || !s[p] then 0 else 1 + OnesFrom(s, p + 1)
  }

  /**
   * Decoding a gamma code at index p of s: the value and the index after the
   * code, or None when the run of ones is 32 or longer (v1 would wrap to 0)
   * or s ends before the code does.
   */
  function GammaAt(s: seq<bool>, p: nat): (r: Option<(u32, nat)>)
    requires p <= |s|
    ensures r.Some? ==> r.value.0 >= 1 && p < r.value.1 <= |s|
  {
    var e := OnesFrom(s, p);
    if e >= 32 || |s| < p + 2 * e + 1 then None
    else
      Pow2AtMost32(e + 1);
      ValBound(s, p + e + 1, p + 2 * e + 1);
      Some((Pow2(e) + Val(s, p + e + 1, p + 2 * e + 1), p + 2 * e + 1))
  }

  /** The run from p is exactly e ones when e ones are followed by a zero. */
  lemma {:induction false} OnesFromExact(s: seq<bool>, p: nat, e: nat)
    requires p + e < |s| && !s[p + e]
    requires forall j :: p <= j < p + e ==> s[j]
    ensures OnesFrom(s, p) == e
    decreases e
  {
    if e > 0 {
      OnesFromExact(s, p + 1, e - 1);
    }
  }

  /** Every bit of the run is a one. */
  lemma {:induction false} OnesFromAt(s: seq<bool>, p: nat, j: nat)
    requires p <= |s| && p <= j < p + OnesFrom(s, p)
    ensures s[j]
    decreases j - p
  {
    if j > p {
      OnesFromAt(s, p + 1, j);
    }
  }

  /** A 32-bit v >= 1 has bit length at most 32, so its code's run of ones is below 32. */
  lemma GammaRunBelow32(v: u32)
    requires v >= 1
    ensures BitLength(v) - 1 < 32
  {
    Pow2Values();
    BitLengthFits(v, 32);
  }

  /** Decoding the gamma code of any 32-bit v >= 1 gives v back and the index just past the code. */
  lemma GammaRoundTrip(pre: seq<bool>, v: u32, post: seq<bool>)
    requires v >= 1
    ensures GammaAt(pre + GammaCode(v) + post, |pre|) == Some((v, |pre| + |GammaCode(v)|))
  {
    var e := BitLength(v) - 1;
    var p := |pre|;
    var s := pre + GammaCode(v) + post;
    assert s == pre + Ones(e) + [false] + ToBits(v, e) + post;
    assert forall j :: p <= j < p + e ==> s[j] by {
      forall j | p <= j < p + e
        ensures s[j]
      {
        assert s[j] == Ones(e)[j - p];
      }
    }
    assert !s[p + e];
    OnesFromExact(s, p, e);
    GammaRunBelow32(v);
    assert s == (pre + Ones(e) + [false]) + ToBits(v, e) + post;
    BinaryRoundTrip(pre + Ones(e) + [false], v, e, post);
    DivModUnique(v, Pow2(e), 1, v - Pow2(e));
  }

  /** Whatever the decoder accepts at p is the gamma code of the value it returns. */
  lemma GammaAtExact(s: seq<bool>, p: nat, v: u32, q: nat)
    requires p <= |s| && GammaAt(s, p) == Some((v, q))
    ensures v >= 1 && p <= q <= |s| && s[p..q] == GammaCode(v)
  {
    var e := OnesFrom(s, p);
    assert q == p + 2 * e + 1 <= |s| && v == Pow2(e) + Val(s, p + e + 1, q);
    GammaCodeAt(s, p, e, v, q);
  }

  /** A run of e ones, its zero, and e more bits denoting low spell out the gamma code of 2^e + low. */
  lemma GammaCodeAt(s: seq<bool>, p: nat, e: nat, v: nat, q: nat)
    requires p <= |s| && e == OnesFrom(s, p) && q == p + 2 * e + 1 <= |s|
    requires v == Pow2(e) + Val(s, p + e + 1, q)
    ensures v >= 1 && s[p..q] == GammaCode(v)
  {
    var t := s[p + e + 1..q];
    assert s[p..q] == Ones(e) + [false] + t by {
      OnesFromPrefix(s, p);
      SliceAround(s, p, p + e, q);
      assert s[p + e] == false;
    }
    ValFromBits(s, p + e + 1, q);
    GammaLowBits(e, t, v);
  }

  /** The bits after the zero of a gamma code are the bits below the top bit of 2^e + their value. */
  lemma GammaLowBits(e: nat, t: seq<bool>, v: nat)
    requires |t| == e && v == Pow2(e) + FromBits(t)
    ensures v >= 1 && GammaCode(v) == Ones(e) + [false] + t
  {
    var low := FromBits(t);
    assert Pow2(e) <= v < Pow2(e + 1);
    BitLengthExact(v, e);
    DivModUnique(v, Pow2(e), 1, low);
    ToBitsMod(v, e);
    ToFromBits(t);
    assert ToBits(v, e) == t;
  }

  /** The run of ones from p, as a slice. */
  lemma OnesFromPrefix(s: seq<bool>, p: nat)
    requires p <= |s|
    ensures s[p..p + OnesFrom(s, p)] == Ones(OnesFrom(s, p))
  {
    forall j | p <= j < p + OnesFrom(s, p)
      ensures s[j]
    {
      OnesFromAt(s, p, j);
    }
  }

  /** A value between 2^e and 2^(e+1) has bit length e + 1. */
  lemma BitLengthExact(v: nat, e: nat)
    requires Pow2(e) <= v < Pow2(e + 1)
    ensures BitLength(v) == e + 1
  {
    BitLengthFits(v, e + 1);
    BitLengthFits(v, e);
  }

  /** The low n bits of v depend only on v modulo 2^n. */
  lemma ToBitsMod(v: nat, n: nat)
    ensures ToBits(v, n) == ToBits(v % Pow2(n), n)
  {
    FromToBits(v, n);
    ToFromBits(ToBits(v, n));
  }

  /**
   * The first loop of write_gamma: v is shifted right until it reaches 1,
   * and a one bit is written per shift; e counts the shifts.
   */
  method WriteUnary(bits: BitWriter, value: u32) returns (e: nat)
    requires bits.Valid() && value > 0
    modifies bits
    ensures bits.Valid() && bits.written == old(bits.written) + Ones(e)
    ensures e == BitLength(value) - 1
  {
    var v := value;
    e := 0;
    while v > 1
      invariant bits.Valid() && v >= 1 && v == Shr(value, e)
      invariant bits.written == old(bits.written) + Ones(e)
    {
      ShrStep(value, e);
      v := v / 2;
      e := e + 1;
      bits.WriteBit(true);
      assert Ones(e - 1) + [true] == Ones(e);
      AppendAssoc(old(bits.written), Ones(e - 1), [true]);
    }
    ShrToOne(value, e);
  }

  /**
   * The second loop of write_gamma: the mask b = 1 << e moves down one bit
   * per pass, and value & b writes bit e of value; so the low e bits of
   * value go out most-significant first.
   */
  method WriteLow(bits: BitWriter, value: u32, e: nat)
    requires bits.Valid()
    modifies bits
    ensures bits.Valid() && bits.written == old(bits.written) + ToBits(value, e)
  {
    var k := e;
    while k > 0
      invariant bits.Valid() && 0 <= k <= e
      invariant bits.written == old(bits.written) + ToBits(Shr(value, k), e - k)
    {
      k := k - 1;
      bits.WriteBit(Shr(value, k) % 2 == 1);
      ShrStep(value, k);
      AppendAssoc(old(bits.written), ToBits(Shr(value, k + 1), e - k - 1), [Shr(value, k) % 2 == 1]);
    }
  }

  /** write_gamma: e one bits, a zero bit, then the low e bits of value, where e + 1 is its bit length. */
  method WriteGamma(bits: BitWriter, value: u32)
    requires bits.Valid() && value > 0
    modifies bits
    ensures bits.Valid() && bits.written == old(bits.written) + GammaCode(value)
  {
    ghost var w0 := bits.written;
    var e := WriteUnary(bits, value);
    bits.WriteBit(false);
    AppendAssoc(w0, Ones(e), [false]);
    WriteLow(bits, value, e);
    AppendAssoc(w0, Ones(e) + [false], ToBits(value, e));
    assert GammaCode(value) == Ones(e) + [false] + ToBits(value, e);
  }

  /**
   * The first loop of read_gamma: bits are read until a zero bit, doubling
   * v1 for each one bit; e counts them. The loop also stops if v1 wraps to
   * 0, which the precondition rules out (e stays below 32).
   */
  method ReadUnary(bits: BitReader) returns (v1: u32, e: nat)
    requires bits.Valid()
    requires OnesFrom(bits.stream, bits.Position()) < 32
    requires bits.Position() + OnesFrom(bits.stream, bits.Position()) + 1 < |bits.stream|
    modifies bits
    ensures bits.Valid() && e == OnesFrom(bits.stream, old(bits.Position())) && v1 == Pow2(e)
    ensures bits.Position() == old(bits.Position()) + e + 1
  {
    ghost var s, p := bits.stream, bits.Position();
    ghost var e0 := OnesFrom(s, p);
    v1 := 1;
    e := 0;
    var more := bits.ReadBit();
    while more && v1 != 0
      invariant bits.Valid() && 0 <= e <= e0 && v1 == Pow2(e)
      invariant bits.Position() == p + e + 1 && more == s[p + e]
      invariant more ==> e < e0
      decreases e0 - e
    {
      ghost var doubled := v1 * 2;
      assert doubled == Pow2(e + 1) < 0x1_0000_0000 by {
        Pow2Below32(e + 1);
      }
      DivModUnique(doubled, 0x1_0000_0000, 0, doubled);
      v1 := (v1 * 2) % 0x1_0000_0000;
      e := e + 1;
      more := bits.ReadBit();
    }
    if e < e0 {
      OnesFromAt(s, p, p + e);
    }
  }

  /** The second loop of read_gamma: e more bits, most-significant first. */
  method ReadLow(bits: BitReader, e: nat) returns (v2: u32)
    requires bits.Valid() && e < 32 && bits.Position() + e < |bits.stream|
    modifies bits
    ensures bits.Valid() && bits.Position() == old(bits.Position()) + e
    ensures v2 == Val(bits.stream, old(bits.Position()), bits.Position())
  {
    ghost var s, p := bits.stream, bits.Position();
    v2 := 0;
    var k := e;
    while k > 0
      invariant bits.Valid() && 0 <= k <= e && bits.Position() == p + (e - k)
      invariant v2 == Val(s, p, bits.Position())
    {
      k := k - 1;
      ghost var q := bits.Position();
      var b := bits.ReadBit();
      assert 2 * v2 + 1 < 0x1_0000_0000 by {
        ValBound(s, p, q);
        Pow2Monotone(q - p, e);
        Pow2Below32(e);
      }
      v2 := v2 * 2 + (if b then 1 else 0);
    }
  }

  /** read_gamma: the assertion that v1 did not wrap to zero is part of the precondition. */
  method ReadGamma(bits: BitReader) returns (v: u32)
    requires bits.Valid() && GammaAt(bits.stream, bits.Position()).Some?
    requires GammaAt(bits.stream, bits.Position()).value.1 < |bits.stream|
    modifies bits
    ensures bits.Valid() && GammaAt(bits.stream, old(bits.Position())) == Some((v, bits.Position()))
  {
    var v1, e := ReadUnary(bits);
    var v2 := ReadLow(bits, e);
    v := v1 + v2;
  }
}
