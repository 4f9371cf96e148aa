/**
 * The array codecs built on the bit streams, the gamma code and the
 * adaptive block packer:
 *  - write_delta_array / read_delta_array store a gamma-coded count
 *    followed by the packed values;
 *  - write_array / read_array store an increasing array as the gaps
 *    between neighbours, computed modulo 2^32 from a start of UINT32_MAX.
 */
module Arrays {
  import opened Bits
  import opened BitStream
  import opened Codes
  import opened Packer

  // ------------------------------------------------------------------
  // Delta arrays

  /**
   * What read_delta_array finds at index p of s: a gamma-coded count, then
   * that many values decoded from the start width with no block open; with
   * the index after the last value.
   */
  ghost function DeltaArrayAt(s: seq<bool>, p: nat): (r: Option<(seq<u32>, nat)>)
    requires p <= |s|
    ensures r.Some? ==> 1 <= |r.value.0| < 0x1_0000_0000 && p < r.value.1 <= |s|
  {
    match GammaAt(s, p)
    case None => None
    case Some((size, q)) =>
      DecodeValuesCount(s, q, StartWidth, 0, size);
      DecodeValues(s, q, StartWidth, 0, size)
  }

  /**
   * write_delta_array: the element count, truncated to 32 bits as the cast
   * does, in gamma code, then the packed values. The gamma coder asserts the
   * count is not zero.
   */
  method WriteDeltaArray(bits: BitWriter, arr: seq<u32>)
    requires bits.Valid() && |arr| % 0x1_0000_0000 != 0
    modifies bits
    ensures bits.Valid()
    ensures bits.written == old(bits.written) + GammaCode(|arr| % 0x1_0000_0000) + PackBits(StartWidth, arr)
  {
    var cnt: u32 := |arr| % 0x1_0000_0000;
    WriteGamma(bits, cnt);
    CompressSimpleArraySelector(bits, arr);
  }

  /**
   * read_delta_array: the count, then a result of that many elements, filled
   * in order by ReadValues.
   */
  method ReadDeltaArray(bits: BitReader) returns (result: seq<u32>)
    requires bits.Valid() && DeltaArrayAt(bits.stream, bits.Position()).Some?
    modifies bits
    ensures bits.Valid() && DeltaArrayAt(bits.stream, old(bits.Position())) == Some((result, bits.Position()))
  {
    ghost var s, p0 := bits.stream, bits.Position();
    ghost var size0, q := GammaAt(s, p0).value.0, GammaAt(s, p0).value.1;
    DeltaArrayFrom(s, p0, size0, q);
    GammaFollowed(s, q, size0);
    var size := ReadGamma(bits);
    var values := new u32[size];
    ReadValues(bits, values);
    result := values[..];
  }

  /** The loop of read_delta_array: one value per element of values, each read by one pass of ReadValue. */
  method ReadValues(bits: BitReader, values: array<u32>)
    requires bits.Valid() && DecodeValues(bits.stream, bits.Position(), StartWidth, 0, values.Length).Some?
    modifies bits, values
    ensures bits.Valid()
    ensures DecodeValues(bits.stream, old(bits.Position()), StartWidth, 0, values.Length) == Some((values[..], bits.Position()))
  {
    ghost var s, pos := bits.stream, bits.Position();
    ghost var whole := DecodeValues(s, pos, StartWidth, 0, values.Length);
    var width: int := StartWidth;
    var span: int := 0;
    ghost var tail := whole;
    PrependTwice([], [], tail);
    assert values[..0] == [];
    for i := 0 to values.Length
      invariant bits.Valid() && bits.stream == s && pos == bits.Position() <= |s|
      invariant tail == DecodeValues(s, pos, width, span, values.Length - i)
      invariant whole == Prepend(values[..i], tail) && tail.Some?
    {
      ghost var before := values[..i];
      DecodeFirst(s, pos, width, span, values.Length - i);
      var v, width', span' := ReadValue(bits, width, span);
      values[i] := v;
      assert values[..i + 1] == before + [v];
      ghost var pos' := bits.Position();
      ghost var tail' := DecodeValues(s, pos', width', span', values.Length - i - 1);
      DecodeAdvance(s, pos, width, span, values.Length - i, v, pos', width', span', whole, before, tail, tail');
      width, span, tail, pos := width', span', tail', pos';
    }
    assert values[..values.Length] == values[..];
    DecodeDone(s, pos, width, span, whole, values[..], tail);
  }

  /** One pass of the loop of read_delta_array: a selector when the block is used up, then one value. */
  method ReadValue(bits: BitReader, width: int, span: int) returns (v: u32, width': int, span': int)
    requires bits.Valid() && NextValue(bits.stream, bits.Position(), width, span).Some?
    modifies bits
    ensures bits.Valid()
    ensures NextValue(bits.stream, old(bits.Position()), width, span) == Some((v, bits.Position(), width', span'))
  {
    ghost var s, p := bits.stream, bits.Position();
    width', span' := width, span;
    if span' == 0 {
      var selector := bits.Read(4);
      ValBound(s, p, p + 4);
      Pow2Values();
      span' := Selectors[selector].span;
      if selector == 0 {
        width' := MaxWidth;
      } else {
        width' := width' + Selectors[selector].databits;
      }
      assert width' == NextWidth(width, selector);
    }
    ghost var p1 := bits.Position();
    assert NextValue(s, p, width, span) == ValueAt(s, p1, width', span');
    if width' > 0 {
      v := bits.Read(width');
      ValueRead(s, p1, width', span', v, bits.Position());
    } else {
      v := 0;
    }
    span' := span' - 1;
  }

  /** A value read in the running width is the value ValueAt decodes. */
  lemma ValueRead(s: seq<bool>, p: nat, width: int, span: int, v: u32, q: nat)
    requires 0 < width <= 32 && q == p + width < |s| && v == Val(s, p, q)
    ensures ValueAt(s, p, width, span) == Some((v, q, width, span - 1))
  {
  }

  /** A decoding that yields a value needs a first selector, so the count is followed by at least five bits. */
  lemma GammaFollowed(s: seq<bool>, q: nat, size: nat)
    requires q <= |s| && size >= 1 && DecodeValues(s, q, StartWidth, 0, size).Some?
    ensures q < |s|
  {
  }

  /** A decoding of at least one value starts with a value that decodes. */
  lemma DecodeFirst(s: seq<bool>, p: nat, width: int, span: int, count: nat)
    requires p <= |s| && count >= 1 && DecodeValues(s, p, width, span, count).Some?
    ensures NextValue(s, p, width, span).Some?
  {
  }

  /** The first value decoded, in front of the rest. */
  lemma DecodeStep(s: seq<bool>, p: nat, width: int, span: int, count: nat, v: u32, q: nat, w: int, n: int)
    requires p <= |s| && count >= 1 && NextValue(s, p, width, span) == Some((v, q, w, n))
    ensures DecodeValues(s, p, width, span, count) == Prepend([v], DecodeValues(s, q, w, n, count - 1))
  {
  }

  /** When no value is left to read, the values read are the whole decoding. */
  lemma DecodeDone(s: seq<bool>, p: nat, width: int, span: int, whole: Option<(seq<u32>, nat)>, vs: seq<u32>,
                   tail: Option<(seq<u32>, nat)>)
    requires p <= |s| && tail == DecodeValues(s, p, width, span, 0) && whole == Prepend(vs, tail)
    ensures whole == Some((vs, p))
  {
    assert vs + [] == vs;
  }

  /** After one more value is read, the values so far and the rest still make up the whole decoding. */
  lemma DecodeAdvance(s: seq<bool>, p: nat, width: int, span: int, count: nat, v: u32, q: nat, w: int, n: int,
                      total: Option<(seq<u32>, nat)>, before: seq<u32>, tail: Option<(seq<u32>, nat)>, tail': Option<(seq<u32>, nat)>)
    requires p <= |s| && count >= 1 && NextValue(s, p, width, span) == Some((v, q, w, n))
    requires tail == DecodeValues(s, p, width, span, count) && total == Prepend(before, tail)
    requires q <= |s| && tail' == DecodeValues(s, q, w, n, count - 1)
    ensures total == Prepend(before + [v], tail') && (tail.Some? ==> tail'.Some?)
  {
    DecodeStep(s, p, width, span, count, v, q, w, n);
    PrependTwice(before, [v], tail');
  }

  /**
   * The bits write_delta_array emits for arr (g, the gamma-coded count, and
   * pk, the packed values), followed by at least one more bit, decode to arr
   * and end right after the packed values; every value must be below 2^30
   * and the count must fit in 32 bits.
   */
  lemma DeltaArrayRoundTrip(s: seq<bool>, pre: seq<bool>, g: seq<bool>, pk: seq<bool>, post: seq<bool>, arr: seq<u32>, q: nat)
    requires 1 <= |arr| < 0x1_0000_0000 && |post| >= 1 && AllFit(arr)
    requires g == GammaCode(|arr|) && pk == PackBits(StartWidth, arr)
    requires s == pre + g + pk + post && q == |pre| + |g| + |pk|
    ensures |pre| <= |s| && DeltaArrayAt(s, |pre|) == Some((arr, q))
  {
    var m := |pre| + |g|;
    PackFollowed(s, pre + g, pk, post, arr, m, q);
    DeltaArrayJoin(s, pre, |arr|, g, pk, post, arr, m, q);
  }

  /** The packed values of arr, anywhere in a stream and followed by at least one bit, decode to arr. */
  lemma PackFollowed(s: seq<bool>, a: seq<bool>, pk: seq<bool>, post: seq<bool>, arr: seq<u32>, p: nat, q: nat)
    requires pk == PackBits(StartWidth, arr) && |post| >= 1 && AllFit(arr)
    requires s == a + pk + post && p == |a| && q == p + |pk|
    ensures p <= |s| && DecodeValues(s, p, StartWidth, 0, |arr|) == Some((arr, q))
  {
    AtMiddle(a, pk, post);
    PackRoundTrip(s, p, StartWidth, arr, pk, q);
  }

  /** A count in gamma code followed by that many decodable values is a delta array. */
  lemma DeltaArrayJoin(s: seq<bool>, pre: seq<bool>, size: u32, g: seq<bool>, pk: seq<bool>, post: seq<bool>, vs: seq<u32>, m: nat, q: nat)
    requires size >= 1 && g == GammaCode(size)
    requires s == pre + g + pk + post && m == |pre| + |g| && q == m + |pk|
    requires DecodeValues(s, m, StartWidth, 0, size) == Some((vs, q))
    ensures |pre| <= |s| && DeltaArrayAt(s, |pre|) == Some((vs, q))
  {
    GammaRoundTrip(pre, size, pk + post);
    AppendAssoc(pre + g, pk, post);
    assert GammaAt(s, |pre|) == Some((size, m));
    DeltaArrayFrom(s, |pre|, size, m);
  }

  /** Once the count is read, a delta array is its values. */
  lemma DeltaArrayFrom(s: seq<bool>, p: nat, size: u32, q: nat)
    requires p <= |s| && GammaAt(s, p) == Some((size, q))
    ensures q <= |s| && DeltaArrayAt(s, p) == DecodeValues(s, q, StartWidth, 0, size)
  {
  }

  // ------------------------------------------------------------------
  // Increasing arrays

  /** The gap write_array stores for v after last: v - last - 1 in 32-bit unsigned arithmetic. */
  function Gap(v: u32, last: u32): (d: u32)
    ensures d == if v > last then v - last - 1 else v - last - 1 + 0x1_0000_0000
  {
    var x := v - last - 1;
    DivModUnique(x, 0x1_0000_0000, if v > last then 0 else -1, if v > last then x else x + 0x1_0000_0000);
    x % 0x1_0000_0000
  }

  /** The value read_array rebuilds from a gap: d + last + 1 in 32-bit unsigned arithmetic. */
  function Ungap(d: u32, last: u32): (v: u32)
    ensures v == if d + last + 1 < 0x1_0000_0000 then d + last + 1 else d + last + 1 - 0x1_0000_0000
  {
    var x := d + last + 1;
    DivModUnique(x, 0x1_0000_0000, if x < 0x1_0000_0000 then 0 else 1, if x < 0x1_0000_0000 then x else x - 0x1_0000_0000);
    x % 0x1_0000_0000
  }

  /** Ungap undoes Gap and Gap undoes Ungap; with no wrap-around the gap is the plain difference less one. */
  lemma GapInverse(v: u32, d: u32, last: u32)
    ensures Ungap(Gap(v, last), last) == v
    ensures Gap(Ungap(d, last), last) == d
    ensures v > last ==> Gap(v, last) == v - last - 1
    ensures Gap(v, U32Max) == v
  {
  }

  /** The gaps of arr after last, in order. */
  function Gaps(arr: seq<u32>, last: u32): (ds: seq<u32>)
    ensures |ds| == |arr|
    decreases |arr|
  {
    if arr == [] then [] else [Gap(arr[0], last)] + Gaps(arr[1..], arr[0])
  }

  /** The values rebuilt from the gaps ds after last, in order. */
  function Ungaps(ds: seq<u32>, last: u32): (vs: seq<u32>)
    ensures |vs| == |ds|
    decreases |ds|
  {
    if ds == [] then [] else var v := Ungap(ds[0], last); [v] + Ungaps(ds[1..], v)
  }

  /** Rebuilding from the gaps gives back the array, whatever its order. */
  lemma {:induction false} UngapsGaps(arr: seq<u32>, last: u32)
    ensures Ungaps(Gaps(arr, last), last) == arr
    decreases |arr|
  {
    if arr != [] {
      GapInverse(arr[0], 0, last);
      UngapsGaps(arr[1..], arr[0]);
    }
  }

  /** The check write_array asserts on each value: above the previous one, unless the previous is UINT32_MAX. */
  ghost predicate AscendingAsAsserted(arr: seq<u32>)
    ensures StrictlyIncreasing(arr) ==> AscendingAsAsserted(arr)
  {
    forall i :: 0 < i < |arr| ==> arr[i - 1] < arr[i] || arr[i - 1] == U32Max
  }

  ghost predicate StrictlyIncreasing(arr: seq<u32>)
  {
    forall i :: 0 < i < |arr| ==> arr[i - 1] < arr[i]
  }

  /**
   * The assertion also lets through any value that follows UINT32_MAX, so
   * it accepts arrays that are not increasing.
   */
  lemma AssertAdmitsDescent()
    ensures AscendingAsAsserted([U32Max, 0]) && !StrictlyIncreasing([U32Max, 0])
  {
    var a: seq<u32> := [U32Max, 0];
    assert a[0] == U32Max && a[1] == 0 && !(a[0] < a[1]);
  }

  /** A value in front of an array keeps it strictly increasing exactly when it is below the first element. */
  lemma IncreasingCons(x: u32, t: seq<u32>)
    ensures StrictlyIncreasing([x] + t) <==> (t == [] || x < t[0]) && StrictlyIncreasing(t)
  {
    var a := [x] + t;
    assert forall i :: 0 < i < |a| ==> a[i] == t[i - 1];
    if StrictlyIncreasing(a) {
      forall i | 0 < i < |t|
        ensures t[i - 1] < t[i]
      {
        assert a[i] < a[i + 1];
      }
      if t != [] {
        assert a[0] < a[1];
      }
    }
    if (t == [] || x < t[0]) && StrictlyIncreasing(t) {
      forall i | 0 < i < |a|
        ensures a[i - 1] < a[i]
      {
        if i > 1 {
          assert a[i - 1] == t[i - 2];
        }
      }
    }
  }

  /** How far the rebuild climbs over ds: every gap plus one. */
  ghost function Climb(ds: seq<u32>): (n: nat)
    ensures n >= |ds|
    decreases |ds|
  {
    if ds == [] then 0 else ds[0] + 1 + Climb(ds[1..])
  }

  /**
   * Rebuilding from gaps after last climbs strictly above last and keeps
   * climbing exactly when the sum never passes UINT32_MAX: one wrap-around
   * brings a value back to last or below.
   */
  lemma {:induction false} UngapsAbove(ds: seq<u32>, last: u32)
    ensures StrictlyIncreasing([last] + Ungaps(ds, last)) <==> last + Climb(ds) < 0x1_0000_0000
    decreases |ds|
  {
    if ds == [] {
      assert [last] + Ungaps(ds, last) == [last];
    } else {
      var v := Ungap(ds[0], last);
      var rest := Ungaps(ds[1..], v);
      assert Ungaps(ds, last) == [v] + rest;
      IncreasingCons(last, [v] + rest);
      UngapsAbove(ds[1..], v);
    }
  }

  /**
   * What read_array returns for the gaps ds is increasing, and so unique,
   * exactly when the first gap plus the climb over the others stays below
   * 2^32.
   */
  lemma ReadArrayIncreasing(ds: seq<u32>)
    requires |ds| >= 1
    ensures StrictlyIncreasing(Ungaps(ds, U32Max)) <==> ds[0] + Climb(ds[1..]) < 0x1_0000_0000
  {
    assert Ungaps(ds, U32Max) == [ds[0]] + Ungaps(ds[1..], ds[0]);
    UngapsAbove(ds[1..], ds[0]);
  }

  /**
   * The gaps of a strictly increasing array after a smaller value (or after
   * UINT32_MAX, for the first) are no larger than its values, so they fit
   * the packer when the values do.
   */
  lemma GapsBelow(arr: seq<u32>, last: u32, bound: nat)
    requires StrictlyIncreasing(arr) && (arr != [] ==> last < arr[0] || last == U32Max)
    requires forall k :: 0 <= k < |arr| ==> arr[k] < bound
    ensures forall k :: 0 <= k < |arr| ==> Gaps(arr, last)[k] < bound
  {
    forall k | 0 <= k < |arr|
      ensures Gaps(arr, last)[k] < bound
    {
      GapsIndex(arr, last, k);
      if k == 0 {
        GapInverse(arr[0], 0, last);
      } else {
        GapInverse(arr[k], 0, arr[k - 1]);
      }
    }
  }

  /** Each gap is taken from the value before it, the first from last. */
  lemma {:induction false} GapsIndex(arr: seq<u32>, last: u32, k: nat)
    requires k < |arr|
    ensures Gaps(arr, last)[k] == if k == 0 then Gap(arr[0], last) else Gap(arr[k], arr[k - 1])
    decreases k
  {
    if k > 0 {
      GapsIndex(arr[1..], arr[0], k - 1);
      assert arr[1..][k - 1] == arr[k];
      if k > 1 {
        assert arr[1..][k - 2] == arr[k - 1];
      }
    }
  }

  /**
   * write_array: the gaps of arr, the first taken from UINT32_MAX, go out as
   * a delta array. The assertion in the loop is part of the precondition, and
   * so is the non-zero count the gamma coder asserts.
   */
  method WriteArray(bits: BitWriter, arr: seq<u32>)
    requires bits.Valid() && AscendingAsAsserted(arr) && |arr| % 0x1_0000_0000 != 0
    modifies bits
    ensures bits.Valid()
    ensures bits.written == old(bits.written) + GammaCode(|arr| % 0x1_0000_0000) + PackBits(StartWidth, Gaps(arr, U32Max))
  {
    var deltas := ComputeGaps(arr);
    WriteDeltaArray(bits, deltas);
  }

  /** The loop of write_array: the gap of each value after the one before it, the first after UINT32_MAX. */
  method ComputeGaps(arr: seq<u32>) returns (deltas: seq<u32>)
    ensures deltas == Gaps(arr, U32Max)
  {
    deltas := [];
    if arr != [] {
      var last: u32 := U32Max;
      for i := 0 to |arr|
        invariant |deltas| == i
        invariant deltas + Gaps(arr[i..], last) == Gaps(arr, U32Max)
      {
        assert arr[i..] == [arr[i]] + arr[i + 1..];
        AppendAssoc(deltas, [Gap(arr[i], last)], Gaps(arr[i + 1..], arr[i]));
        deltas := deltas + [Gap(arr[i], last)];
        last := arr[i];
      }
      assert arr[|arr|..] == [] && deltas + [] == deltas;
    }
  }

  /** read_array: a delta array whose gaps are turned back into values in place. */
  method ReadArray(bits: BitReader) returns (result: seq<u32>)
    requires bits.Valid() && DeltaArrayAt(bits.stream, bits.Position()).Some?
    modifies bits
    ensures bits.Valid()
    ensures DeltaArrayAt(bits.stream, old(bits.Position())) == Some((Gaps(result, U32Max), bits.Position()))
  {
    result := ReadDeltaArray(bits);
    ghost var deltas, p1 := result, bits.Position();
    var last: u32 := U32Max;
    for i := 0 to |result|
      invariant bits.Valid() && bits.Position() == p1
      invariant |result| == |deltas|
      invariant result[..i] + Ungaps(deltas[i..], last) == Ungaps(deltas, U32Max)
      invariant deltas[i..] == result[i..]
    {
      assert deltas[i..] == [deltas[i]] + deltas[i + 1..];
      var v := Ungap(result[i], last);
      AppendAssoc(result[..i], [v], Ungaps(deltas[i + 1..], v));
      result := result[i := v];
      assert result[..i + 1] == result[..i] + [v];
      last := v;
    }
    assert result == Ungaps(deltas, U32Max) by {
      assert result[..|result|] == result;
      assert deltas[|result|..] == [];
    }
    GapsUngaps(deltas, U32Max);
  }

  /** Taking the gaps of rebuilt values gives back the gaps. */
  lemma {:induction false} GapsUngaps(ds: seq<u32>, last: u32)
    ensures Gaps(Ungaps(ds, last), last) == ds
    decreases |ds|
  {
    if ds != [] {
      GapInverse(0, ds[0], last);
      GapsUngaps(ds[1..], Ungap(ds[0], last));
    }
  }

  /**
   * The bits write_array emits for a strictly increasing arr whose values are
   * below 2^30 (g, the gamma-coded count, and pk, the packed gaps), followed
   * by at least one more bit, are a delta array of the gaps, from which
   * read_array rebuilds arr.
   */
  lemma ArrayRoundTrip(s: seq<bool>, pre: seq<bool>, g: seq<bool>, pk: seq<bool>, post: seq<bool>, arr: seq<u32>, q: nat)
    requires 1 <= |arr| < 0x1_0000_0000 && |post| >= 1 && StrictlyIncreasing(arr) && AllFit(arr)
    requires g == GammaCode(|arr|) && pk == PackBits(StartWidth, Gaps(arr, U32Max))
    requires s == pre + g + pk + post && q == |pre| + |g| + |pk|
    ensures |pre| <= |s| && DeltaArrayAt(s, |pre|) == Some((Gaps(arr, U32Max), q))
    ensures Ungaps(Gaps(arr, U32Max), U32Max) == arr
  {
    GapsBelow(arr, U32Max, Pow2(30));
    DeltaArrayRoundTrip(s, pre, g, pk, post, Gaps(arr, U32Max), q);
    UngapsGaps(arr, U32Max);
  }

  // ------------------------------------------------------------------
  // The round trips of the unit tests

  /**
   * Writing a delta array into a fresh writer, syncing it and reading the
   * array back with a reader over the writer's bytes gives back the array.
   */
  method DeltaArrayTrip(t1: seq<u32>) returns (t2: seq<u32>)
    requires 1 <= |t1| < 0x1_0000_0000 && AllFit(t1)
    ensures t2 == t1
  {
    var obs := new BitWriter([]);
    ghost var w0 := obs.written;
    WriteDeltaArray(obs, t1);
    ghost var g, pk := GammaCode(|t1| % 0x1_0000_0000), PackBits(StartWidth, t1);
    ghost var w1 := obs.written;
    obs.Sync();
    ghost var k := |obs.written| - |w1| - 1;
    var ibs := new BitReader.FromWriter(obs);
    ghost var post := [false] + Ones(k) + Zeros(obs.bitOffset + 1);
    TripStream(ibs.stream, w0, w1, obs.written, g, pk, k, Zeros(obs.bitOffset + 1));
    DivModUnique(|t1|, 0x1_0000_0000, 0, |t1|);
    DeltaArrayRoundTrip(ibs.stream, [], g, pk, post, t1, |g| + |pk|);
    t2 := ReadDeltaArray(ibs);
  }

  /**
   * Writing an increasing array into a fresh writer, syncing it and reading
   * it back with a reader over the writer's bytes gives back the array.
   */
  method ArrayTrip(t1: seq<u32>) returns (t2: seq<u32>)
    requires 1 <= |t1| < 0x1_0000_0000 && StrictlyIncreasing(t1) && AllFit(t1)
    ensures t2 == t1
  {
    var obs := new BitWriter([]);
    ghost var w0 := obs.written;
    WriteArray(obs, t1);
    ghost var g, pk := GammaCode(|t1| % 0x1_0000_0000), PackBits(StartWidth, Gaps(t1, U32Max));
    ghost var w1 := obs.written;
    obs.Sync();
    ghost var k := |obs.written| - |w1| - 1;
    var ibs := new BitReader.FromWriter(obs);
    ghost var post := [false] + Ones(k) + Zeros(obs.bitOffset + 1);
    TripStream(ibs.stream, w0, w1, obs.written, g, pk, k, Zeros(obs.bitOffset + 1));
    DivModUnique(|t1|, 0x1_0000_0000, 0, |t1|);
    ArrayRoundTrip(ibs.stream, [], g, pk, post, t1, |g| + |pk|);
    t2 := ReadArray(ibs);
    UngapsGaps(t2, U32Max);
  }

  /** test_1: a delta array with a repeated value survives the round trip. */
  method Test1() returns (t2: seq<u32>)
    ensures t2 == [1, 2, 3, 3, 2, 1]
  {
    Pow2Values();
    t2 := DeltaArrayTrip([1, 2, 3, 3, 2, 1]);
  }

  /** test_2: a decreasing delta array ending in zero. */
  method Test2() returns (t2: seq<u32>)
    ensures t2 == [3, 2, 1, 0]
  {
    Pow2Values();
    t2 := DeltaArrayTrip([3, 2, 1, 0]);
  }

  /** test_3: a delta array starting with zero. */
  method Test3() returns (t2: seq<u32>)
    ensures t2 == [0, 1, 2, 3]
  {
    Pow2Values();
    t2 := DeltaArrayTrip([0, 1, 2, 3]);
  }

  /** test_4: zeros in the middle of a delta array. */
  method Test4() returns (t2: seq<u32>)
    ensures t2 == [3, 0, 0, 3]
  {
    Pow2Values();
    t2 := DeltaArrayTrip([3, 0, 0, 3]);
  }

  /** test_6: an increasing array through write_array and read_array. */
  method Test6() returns (t2: seq<u32>)
    ensures t2 == [1, 2, 3, 4, 5]
  {
    Pow2Values();
    t2 := ArrayTrip([1, 2, 3, 4, 5]);
  }

  /** test_7: an increasing array starting at zero, with gaps of up to 32642. */
  method Test7() returns (t2: seq<u32>)
    ensures t2 == [0, 2, 4, 10, 11, 125, 32767, 32768, 32769]
  {
    Pow2Values();
    t2 := ArrayTrip([0, 2, 4, 10, 11, 125, 32767, 32768, 32769]);
  }

  /** The stream a reader sees over a synced writer: the delta array, then the sync bits and the zeros after them. */
  lemma TripStream(stream: seq<bool>, w0: seq<bool>, w1: seq<bool>, w2: seq<bool>, g: seq<bool>, pk: seq<bool>, k: int, zs: seq<bool>)
    requires w0 == [] && w1 == w0 + g + pk && k >= 0 && w2 == w1 + [false] + Ones(k)
    requires stream == Unpack([]) + w2 + zs
    ensures stream == [] + g + pk + ([false] + Ones(k) + zs)
  {
  }
}
