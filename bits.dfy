/**
 * Bit sequences, most-significant bit first, and the bytes that carry them.
 *
 * Every layer of the codec speaks about "the next n bits of a value": this
 * module fixes what that means (ToBits / FromBits), gives the shift and mask
 * operations the codec applies to bytes and words (Shr, LowBits), and says
 * how a byte buffer reads as a bit sequence (Unpack).
 */
module Bits {

  /** The result of a decoder: a value, or nothing when the input is not a valid encoding. */
  datatype Option<T> = None | Some(value: T)

  /** An unsigned 8-bit byte, as stored in the codec's byte buffers. */
  newtype byte = x: int | 0 <= x < 256

  /** An unsigned 32-bit integer, the element type of every array the codec handles. */
  type u32 = x: nat | x < 0x1_0000_0000

  const U32Max: u32 := 0xFFFF_FFFF

  function Pow2(n: nat): (r: nat)
    ensures r >= 1
  {
    if n == 0 then 1 else 2 * Pow2(n - 1)
  }

  /** x >> k */
  function Shr(x: nat, k: nat): nat
  {
    if k == 0 then x else Shr(x / 2, k - 1)
  }

  /** x & (2^w - 1): the low w bits of x. */
  function LowBits(x: nat, w: nat): nat
  {
    if w == 0 then 0 else 2 * LowBits(x / 2, w - 1) + x % 2
  }

  /** The low `n` bits of `v`, most-significant first. */
  function ToBits(v: nat, n: nat): (s: seq<bool>)
    ensures |s| == n
  {
    if n == 0 then [] else ToBits(v / 2, n - 1) + [v % 2 == 1]
  }

  /** The number a bit sequence denotes, reading its first bit as the most significant. */
  function FromBits(s: seq<bool>): (v: nat)
    ensures v < Pow2(|s|)
  {
    if s == [] then 0 else 2 * FromBits(s[..|s| - 1]) + (if s[|s| - 1] then 1 else 0)
  }

  /** The number of significant bits of v: 0 for 0, otherwise one more than the position of its top bit. */
  function BitLength(v: nat): (r: nat)
    ensures v < Pow2(r)
    ensures v >= 1 ==> r >= 1 && Pow2(r - 1) <= v
    ensures r == 0 <==> v == 0
  {
    if v == 0 then 0 else 1 + BitLength(v / 2)
  }

  function Zeros(n: nat): (s: seq<bool>)
    ensures |s| == n && forall i :: 0 <= i < n ==> !s[i]
  {
    seq(n, i => false)
  }

  function Ones(n: nat): (s: seq<bool>)
    ensures |s| == n && forall i :: 0 <= i < n ==> s[i]
  {
    seq(n, i => true)
  }

  /** The bits of a byte buffer, each byte most-significant bit first. */
  function Unpack(d: seq<byte>): (s: seq<bool>)
    ensures |s| == 8 * |d|
  {
    if d == [] then [] else Unpack(d[..|d| - 1]) + ToBits(d[|d| - 1] as nat, 8)
  }

  // ------------------------------------------------------------------
  // Arithmetic helpers

  lemma DivModUnique(x: int, d: int, q: int, r: int)
    requires d > 0 && 0 <= r < d && x == q * d + r
    ensures x / d == q && x % d == r
  {
    var q', r' := x / d, x % d;
    var k := q' - q;
    assert k * d == r - r' by {
      assert k * d == q' * d - q * d;
    }
    if k > 0 {
      MulAtLeast(k, d);
    } else if k < 0 {
      MulAtLeast(-k, d);
    }
  }

  lemma MulAtLeast(k: int, d: int)
    requires k >= 1 && d > 0
    ensures k * d >= d
  {
    assert k * d == (k - 1) * d + d;
  }

  lemma MulTwice(a: int, p: int)
    ensures 2 * (a * p) == a * (2 * p)
  {
  }

  lemma DivModSplit(x: int, d: int)
    requires d > 0
    ensures x == (x / d) * d + x % d
  {
  }

  lemma Pow2Add(a: nat, b: nat)
    ensures Pow2(a + b) == Pow2(a) * Pow2(b)
  {
    if a > 0 {
      Pow2Add(a - 1, b);
    }
  }

  lemma Pow2Monotone(a: nat, b: nat)
    requires a <= b
    ensures Pow2(a) <= Pow2(b)
  {
    if a < b {
      Pow2Monotone(a, b - 1);
    }
  }

  lemma Pow2Values()
    ensures Pow2(4) == 16 && Pow2(8) == 256 && Pow2(30) == 0x4000_0000 && Pow2(32) == 0x1_0000_0000
  {
    Pow2Add(8, 8);
    Pow2Add(16, 14);
    Pow2Add(16, 16);
  }

  lemma Pow2AtMost32(k: nat)
    requires k <= 32
    ensures Pow2(k) <= 0x1_0000_0000
  {
    Pow2Monotone(k, 32);
    Pow2Values();
  }

  lemma Pow2Below32(k: nat)
    requires k < 32
    ensures Pow2(k) <= 0x8000_0000
  {
    Pow2Monotone(k, 31);
    Pow2Add(1, 30);
    Pow2Values();
  }

  /** Shifting right by k bits and then by one more is shifting right by k + 1. */
  lemma {:induction false} ShrStep(x: nat, k: nat)
    ensures Shr(x, k) / 2 == Shr(x, k + 1)
  {
    if k > 0 {
      ShrStep(x / 2, k - 1);
    }
  }

  /** A value fits in w bits exactly when its bit length is at most w. */
  lemma BitLengthFits(v: nat, w: nat)
    ensures BitLength(v) <= w <==> v < Pow2(w)
  {
    if BitLength(v) <= w {
      Pow2Monotone(BitLength(v), w);
    } else {
      Pow2Monotone(w, BitLength(v) - 1);
    }
  }

  /** Shifting right until a single 1 is left takes one step fewer than the bit length. */
  lemma {:induction false} ShrToOne(x: nat, k: nat)
    requires Shr(x, k) == 1
    ensures BitLength(x) == k + 1
  {
    if k == 0 {
    } else {
      if x / 2 == 0 {
        ShrZero(k - 1);
      }
      ShrToOne(x / 2, k - 1);
    }
  }

  lemma {:induction false} ShrZero(k: nat)
    ensures Shr(0, k) == 0
  {
    if k > 0 {
      ShrZero(k - 1);
    }
  }

  // ------------------------------------------------------------------
  // Properties of ToBits / FromBits

  lemma {:induction false} FromBitsAppend(s: seq<bool>, t: seq<bool>)
    ensures FromBits(s + t) == FromBits(s) * Pow2(|t|) + FromBits(t)
    decreases |t|
  {
    if t == [] {
      assert s + t == s;
    } else {
      var t' := t[..|t| - 1];
      var b := if t[|t| - 1] then 1 else 0;
      assert (s + t)[..|s + t| - 1] == s + t';
      FromBitsAppend(s, t');
      var a, p := FromBits(s), Pow2(|t'|);
      assert FromBits(s + t) == 2 * FromBits(s + t') + b;
      assert FromBits(t) == 2 * FromBits(t') + b;
      MulTwice(a, p);
    }
  }

  /** Reading back the low n bits of v gives v modulo 2^n. */
  lemma {:induction false} FromToBits(v: nat, n: nat)
    ensures FromBits(ToBits(v, n)) == v % Pow2(n)
  {
    if n > 0 {
      var s := ToBits(v, n);
      assert s[..n - 1] == ToBits(v / 2, n - 1);
      FromToBits(v / 2, n - 1);
      var p := Pow2(n - 1);
      var a, b, c := (v / 2) / p, (v / 2) % p, v % 2;
      assert FromBits(s) == 2 * b + c;
      assert v == a * (2 * p) + (2 * b + c) by {
        DivModSplit(v / 2, p);
        assert v == 2 * (v / 2) + c;
        MulTwice(a, p);
      }
      DivModUnique(v, 2 * p, a, 2 * b + c);
    }
  }

  /** Writing out the value of a bit sequence at its own length gives the sequence back. */
  lemma {:induction false} ToFromBits(s: seq<bool>)
    ensures ToBits(FromBits(s), |s|) == s
  {
    if s != [] {
      var s' := s[..|s| - 1];
      ToFromBits(s');
      var v := FromBits(s);
      assert v / 2 == FromBits(s');
      assert s == s' + [s[|s| - 1]];
    }
  }

  /** A value below 2^n is fixed by its low n bits. */
  lemma FromToBitsSmall(v: nat, n: nat)
    requires v < Pow2(n)
    ensures FromBits(ToBits(v, n)) == v
  {
    FromToBits(v, n);
  }

  /** The last k bits of the low n bits of x are the low k bits of x. */
  lemma {:induction false} ToBitsSuffix(x: nat, n: nat, k: nat)
    requires k <= n
    ensures ToBits(x, n)[n - k..] == ToBits(x, k)
  {
    if k > 0 {
      ToBitsSuffix(x / 2, n - 1, k - 1);
      assert ToBits(x, n)[n - k..] == ToBits(x / 2, n - 1)[n - k..] + [x % 2 == 1];
    } else {
      assert ToBits(x, n)[n..] == [];
    }
  }

  /** The w bits of x that sit j places above its least significant bit are the low w bits of x >> j. */
  lemma {:induction false} ToBitsSlice(x: nat, n: nat, j: nat, w: nat)
    requires j + w <= n
    ensures ToBits(x, n)[n - j - w..n - j] == ToBits(Shr(x, j), w)
  {
    if j == 0 {
      ToBitsSuffix(x, n, w);
      assert ToBits(x, n)[n - w..n] == ToBits(x, n)[n - w..];
    } else {
      ToBitsSlice(x / 2, n - 1, j - 1, w);
      assert ToBits(x, n)[n - j - w..n - j] == ToBits(x / 2, n - 1)[(n - 1) - (j - 1) - w..(n - 1) - (j - 1)];
    }
  }

  /** Masking with the low w bits is reading back the low w bits. */
  lemma {:induction false} LowBitsFromBits(x: nat, w: nat)
    ensures LowBits(x, w) == FromBits(ToBits(x, w))
  {
    if w > 0 {
      LowBitsFromBits(x / 2, w - 1);
      assert ToBits(x, w)[..w - 1] == ToBits(x / 2, w - 1);
    }
  }

  lemma ZerosCons(n: nat)
    ensures Zeros(n + 1) == [false] + Zeros(n)
  {
  }

  lemma ZerosSnoc(n: nat)
    ensures Zeros(n + 1) == Zeros(n) + [false]
  {
  }

  lemma {:induction false} FromBitsZeros(n: nat)
    ensures FromBits(Zeros(n)) == 0
  {
    if n > 0 {
      assert Zeros(n)[..n - 1] == Zeros(n - 1);
      FromBitsZeros(n - 1);
    }
  }

  lemma {:induction false} ToBitsZero(n: nat)
    ensures ToBits(0, n) == Zeros(n)
  {
    if n > 0 {
      ToBitsZero(n - 1);
    }
  }

  /** Byte i of a buffer occupies bits 8i .. 8i+8 of its unpacked form. */
  lemma {:induction false} UnpackByte(d: seq<byte>, i: nat)
    requires i < |d|
    ensures Unpack(d)[8 * i..8 * i + 8] == ToBits(d[i] as nat, 8)
  {
    if i < |d| - 1 {
      UnpackByte(d[..|d| - 1], i);
    }
  }

  lemma AppendAssoc<T>(a: seq<T>, b: seq<T>, c: seq<T>)
    ensures a + (b + c) == (a + b) + c
  {
  }

  lemma DropDrop<T>(s: seq<T>, i: nat, j: nat, k: nat)
    requires k == i + j <= |s|
    ensures s[i..][j..] == s[k..]
  {
  }

  lemma TakeTake<T>(s: seq<T>, m: nat, n: nat)
    requires n <= m <= |s|
    ensures s[..m][..n] == s[..n]
  {
  }

  lemma TakeDrop<T>(s: seq<T>, n: nat)
    requires n <= |s|
    ensures s[..n] + s[n..] == s
  {
  }

  lemma SliceAround<T>(s: seq<T>, a: nat, b: nat, c: nat)
    requires a <= b < c <= |s|
    ensures s[a..c] == s[a..b] + [s[b]] + s[b + 1..c]
  {
  }

  lemma SliceOfSlice<T>(s: seq<T>, a: nat, b: nat, c: nat, e: nat, x: nat, y: nat)
    requires a <= b <= |s| && c <= e <= b - a && x == a + c && y == a + e
    ensures s[a..b][c..e] == s[x..y]
  {
    forall k | 0 <= k < e - c
      ensures s[a..b][c..e][k] == s[x..y][k]
    {
      assert s[a..b][c..e][k] == s[a..b][c + k];
    }
  }

  lemma UnpackAppend(d: seq<byte>, x: byte)
    ensures Unpack(d + [x]) == Unpack(d) + ToBits(x as nat, 8)
  {
    assert (d + [x])[..|d|] == d;
  }

  lemma {:induction false} UnpackConcat(a: seq<byte>, b: seq<byte>)
    ensures Unpack(a + b) == Unpack(a) + Unpack(b)
    decreases |b|
  {
    if b != [] {
      var c, x := b[..|b| - 1], b[|b| - 1];
      assert b == c + [x];
      assert a + b == (a + c) + [x];
      UnpackConcat(a, c);
      UnpackAppend(a + c, x);
      UnpackAppend(c, x);
    } else {
      assert a + b == a;
    }
  }


  // ------------------------------------------------------------------
  // The value of a stretch of a fixed bit sequence

  /**
   * The number denoted by s[a..b], its first bit most significant: the same
   * number as FromBits(s[a..b]) (ValFromBits), defined on indices into s so
   * that proofs about a stream need not reason about slices of slices.
   */
  function Val(s: seq<bool>, a: nat, b: nat): nat
    requires a <= b <= |s|
    decreases b - a
  {
    if a == b then 0 else 2 * Val(s, a, b - 1) + (if s[b - 1] then 1 else 0)
  }

  /** Val is FromBits of the slice. */
  lemma {:induction false} ValFromBits(s: seq<bool>, a: nat, b: nat)
    requires a <= b <= |s|
    ensures Val(s, a, b) == FromBits(s[a..b])
    decreases b - a
  {
    if a < b {
      ValFromBits(s, a, b - 1);
      assert s[a..b][..b - a - 1] == s[a..b - 1];
    }
  }

  /** b - a bits denote less than 2^(b - a). */
  lemma ValBound(s: seq<bool>, a: nat, b: nat)
    requires a <= b <= |s|
    ensures Val(s, a, b) < Pow2(b - a)
  {
    ValFromBits(s, a, b);
  }

  /** Reading a stretch in two parts: the first part shifted left past the second. */
  lemma {:induction false} ValSplit(s: seq<bool>, a: nat, b: nat, c: nat)
    requires a <= b <= c <= |s|
    ensures Val(s, a, c) == Val(s, a, b) * Pow2(c - b) + Val(s, b, c)
    decreases c - b
  {
    if c > b {
      ValSplit(s, a, b, c - 1);
      var x, y, p := Val(s, a, b), Val(s, b, c - 1), Pow2(c - 1 - b);
      assert Val(s, a, c) == 2 * (x * p + y) + (if s[c - 1] then 1 else 0);
      MulTwice(x, p);
    }
  }

  /** The value of a sequence t embedded between pre and post is FromBits(t). */
  lemma ValEmbedded(pre: seq<bool>, t: seq<bool>, post: seq<bool>)
    ensures Val(pre + t + post, |pre|, |pre| + |t|) == FromBits(t)
  {
    var s := pre + t + post;
    ValFromBits(s, |pre|, |pre| + |t|);
    assert s[|pre|..|pre| + |t|] == t;
  }

  // ------------------------------------------------------------------
  // A bit sequence found at a given index of a longer one

  ghost predicate At(s: seq<bool>, p: nat, t: seq<bool>)
  {
    p + |t| <= |s| && s[p..p + |t|] == t
  }

  lemma AtSplit(s: seq<bool>, p: nat, a: seq<bool>, b: seq<bool>, m: nat)
    requires At(s, p, a + b) && m == p + |a|
    ensures At(s, p, a) && At(s, m, b)
  {
    SliceOfSlice(s, p, p + |a + b|, 0, |a|, p, p + |a|);
    SliceOfSlice(s, p, p + |a + b|, |a|, |a + b|, p + |a|, p + |a + b|);
  }

  lemma AtVal(s: seq<bool>, p: nat, v: nat, w: nat)
    requires At(s, p, ToBits(v, w))
    ensures Val(s, p, p + w) == v % Pow2(w)
  {
    ValFromBits(s, p, p + w);
    FromToBits(v, w);
  }

  /** t sits right after a in a + t + b. */
  lemma AtMiddle(a: seq<bool>, t: seq<bool>, b: seq<bool>)
    ensures At(a + t + b, |a|, t)
  {
    assert (a + t + b)[|a|..|a| + |t|] == t;
  }
}
