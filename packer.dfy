/**
 * The adaptive block packer (detail::compress_simple_array_selector) and the
 * per-value decoding loop of read_delta_array.
 *
 * Values go out in blocks of 1, 2 or 4. Each block starts with a four-bit
 * selector that names a width adjustment and a block length (span); every
 * value of the block is then written in the running width. Selector 0 is the
 * escape: it sets the width to 30 and carries one value.
 */
module Packer {
  import opened Bits
  import opened BitStream

  /** kStartWidth: the running width before the first block. */
  const StartWidth: int := 8
  /** kMaxWidth: the widest values the packer stores. */
  const MaxWidth: int := 30

  datatype Selector = Selector(databits: int, span: nat)

  /** kSelectors: for each four-bit selector, the width change and the number of values it covers. */
  const Selectors: seq<Selector> := [
    Selector(0, 1),
    Selector(-4, 1),
    Selector(-2, 1), Selector(-2, 2),
    Selector(-1, 1), Selector(-1, 2), Selector(-1, 4),
    Selector(0, 1), Selector(0, 2), Selector(0, 4),
    Selector(1, 1), Selector(1, 2), Selector(1, 4),
    Selector(2, 1), Selector(2, 2),
    Selector(4, 1)
  ]

  /** Every selector covers 1, 2 or 4 values. */
  lemma SelectorSpans(i: nat)
    requires i < 16
    ensures |Selectors| == 16 && 1 <= Selectors[i].span <= 4 && Selectors[i].span != 3
  {
  }

  /**
   * Entry 0 is the escape. Entries 1 to 15 are listed by width change and
   * then by span, each pair once, and no width change exceeds 4 either way.
   */
  lemma SelectorTable()
    ensures |Selectors| == 16 && Selectors[0] == Selector(0, 1)
    ensures forall i :: 1 <= i < 15 ==>
      Selectors[i].databits < Selectors[i + 1].databits ||
      (Selectors[i].databits == Selectors[i + 1].databits && Selectors[i].span < Selectors[i + 1].span)
    ensures forall i :: 0 <= i < 16 ==> -4 <= Selectors[i].databits <= 4
  {
  }

  /** The running width after selector s: 30 for the escape, otherwise adjusted by its databits. */
  function NextWidth(width: int, s: nat): (r: int)
    requires s < 16
    ensures s == 0 ==> r == MaxWidth
    ensures s != 0 ==> width - 4 <= r <= width + 4
  {
    if s == 0 then MaxWidth else width + Selectors[s].databits
  }

  // ------------------------------------------------------------------
  // Choosing a selector

  /** Every one of the first span bit widths is at most w. */
  ghost predicate Fits(bns: seq<int>, w: int, span: nat)
    requires span <= |bns|
  {
    forall k :: 0 <= k < span ==> bns[k] <= w
  }

  /** The unused bits when the first span values are stored in w bits each. */
  function Waste(bns: seq<int>, w: int, span: nat): int
    requires span <= |bns|
  {
    if span == 0 then 0 else (w - bns[span - 1]) + Waste(bns, w, span - 1)
  }

  /** The score the packer maximises: four points per value beyond the first, less the waste. */
  function Score(bns: seq<int>, w: int, span: nat): int
    requires span <= |bns|
  {
    (span - 1) * 4 - Waste(bns, w, span)
  }

  /**
   * Selector i of table is a candidate for the buffered bit widths bns: it
   * covers no more values than are buffered, its width lies in 0..30 (a
   * negative width becomes huge in the source's unsigned comparison), and
   * every value it covers fits that width.
   */
  ghost predicate Usable(table: seq<Selector>, width: int, bns: seq<int>, i: nat)
  {
    i < |table| && table[i].span <= |bns| &&
    0 <= width + table[i].databits <= MaxWidth &&
    Fits(bns, width + table[i].databits, table[i].span)
  }

  /**
   * The search over selectors i and up, with s the best so far and c its
   * score: a usable selector replaces s only when it scores strictly more.
   */
  ghost function Scan(table: seq<Selector>, width: int, bns: seq<int>, i: nat, s: nat, c: int): (r: nat)
    requires i <= |table|
    ensures r == s || (i <= r < |table| && Usable(table, width, bns, r))
    decreases |table| - i
  {
    if i == |table| then s
    else
      var w := width + table[i].databits;
      var span := table[i].span;
      if Usable(table, width, bns, i) && Score(bns, w, span) > c then Scan(table, width, bns, i + 1, i, Score(bns, w, span))
      else Scan(table, width, bns, i + 1, s, c)
  }

  /** The selector the packer picks for the buffered bit widths bns; the escape scores bns[0] - 30. */
  ghost function Choose(width: int, bns: seq<int>): (r: nat)
    requires |bns| >= 1
    ensures r == 0 || (1 <= r < 16 && Usable(Selectors, width, bns, r))
  {
    Scan(Selectors, width, bns, 1, 0, bns[0] - MaxWidth)
  }

  /**
   * The chosen selector covers between one value and as many as are
   * buffered, leaves the running width in 0..30, and (unless it is the
   * escape) stores every value it covers without loss of bits.
   */
  lemma ChooseFits(width: int, bns: seq<int>)
    requires |bns| >= 1
    ensures var s := Choose(width, bns);
      s < 16 && 1 <= Selectors[s].span <= |bns| && 0 <= NextWidth(width, s) <= MaxWidth &&
      (s != 0 ==> Fits(bns, NextWidth(width, s), Selectors[s].span))
  {
    SelectorSpans(Choose(width, bns));
  }

  /**
   * The score of selector i, counted with the width it gives: the escape
   * stores one value in 30 bits, so its score is bns[0] - 30, the score the
   * search starts from.
   */
  ghost function Points(table: seq<Selector>, width: int, bns: seq<int>, i: nat): int
    requires i < |table| && table[i].span <= |bns|
  {
    Score(bns, if i == 0 then MaxWidth else width + table[i].databits, table[i].span)
  }

  /** The search never ends on a lower score than it starts from. */
  lemma {:induction false} ScanGrows(table: seq<Selector>, width: int, bns: seq<int>, i: nat, s: nat, c: int)
    requires 1 <= i <= |table| && s < |table| && table[s].span <= |bns| && c == Points(table, width, bns, s)
    ensures var r := Scan(table, width, bns, i, s, c);
      r < |table| && table[r].span <= |bns| && c <= Points(table, width, bns, r)
    decreases |table| - i
  {
    if i < |table| {
      var w := width + table[i].databits;
      var span := table[i].span;
      if Usable(table, width, bns, i) && Score(bns, w, span) > c {
        ScanGrows(table, width, bns, i + 1, i, Score(bns, w, span));
      } else {
        ScanGrows(table, width, bns, i + 1, s, c);
      }
    }
  }

  /** No usable selector from i on scores more than the one the search ends on. */
  lemma {:induction false} ScanBest(table: seq<Selector>, width: int, bns: seq<int>, i: nat, s: nat, c: int, j: nat)
    requires 1 <= i <= j < |table| && s < |table| && table[s].span <= |bns| && c == Points(table, width, bns, s)
    requires Usable(table, width, bns, j)
    ensures var r := Scan(table, width, bns, i, s, c);
      r < |table| && table[r].span <= |bns| && Points(table, width, bns, j) <= Points(table, width, bns, r)
    decreases |table| - i
  {
    var w := width + table[i].databits;
    var span := table[i].span;
    if Usable(table, width, bns, i) && Score(bns, w, span) > c {
      if j == i {
        ScanGrows(table, width, bns, i + 1, i, Score(bns, w, span));
      } else {
        ScanBest(table, width, bns, i + 1, i, Score(bns, w, span), j);
      }
    } else {
      ScanGrows(table, width, bns, i + 1, s, c);
      if j > i {
        ScanBest(table, width, bns, i + 1, s, c, j);
      }
    }
  }

  /**
   * The selector the packer picks scores at least as much as the escape and
   * as every other selector that could store the buffered values.
   */
  lemma ChooseBest(width: int, bns: seq<int>, j: nat)
    requires |bns| >= 1 && 1 <= j < 16 && Usable(Selectors, width, bns, j)
    ensures var r := Choose(width, bns);
      r < 16 && Selectors[r].span <= |bns| &&
      Points(Selectors, width, bns, 0) <= Points(Selectors, width, bns, r) &&
      Points(Selectors, width, bns, j) <= Points(Selectors, width, bns, r)
  {
    assert Waste(bns, MaxWidth, 1) == MaxWidth - bns[0];
    assert Points(Selectors, width, bns, 0) == bns[0] - MaxWidth;
    ScanGrows(Selectors, width, bns, 1, 0, bns[0] - MaxWidth);
    ScanBest(Selectors, width, bns, 1, 0, bns[0] - MaxWidth, j);
  }

  // ------------------------------------------------------------------
  // The packed bit sequence

  function Min(a: int, b: int): int
  {
    if a < b then a else b
  }

  /** The bit widths (bit_width) of a run of values. */
  function BitWidths(vs: seq<u32>): (bns: seq<int>)
    ensures |bns| == |vs| && forall k :: 0 <= k < |vs| ==> bns[k] == BitLength(vs[k])
  {
    if vs == [] then [] else [BitLength(vs[0]) as int] + BitWidths(vs[1..])
  }

  /** Each value in w bits, most-significant first, one after the other. */
  function Payload(vs: seq<u32>, w: nat): (t: seq<bool>)
    ensures |t| == |vs| * w
  {
    if vs == [] then [] else ToBits(vs[0], w) + Payload(vs[1..], w)
  }

  /** A payload in at most 30-bit widths takes at most 30 bits per value. */
  lemma PayloadAtMost(vs: seq<u32>, w: nat)
    requires w <= MaxWidth
    ensures |Payload(vs, w)| <= MaxWidth * |vs|
  {
    assert |vs| * MaxWidth - |vs| * w == |vs| * (MaxWidth - w);
  }

  /**
   * What the packer writes for vs, starting with running width `width`: for
   * each block, the selector in four bits and then the block's values in the
   * block's width. The block is chosen from the next four values, or from all
   * that remain when fewer are left.
   */
  ghost function PackBits(width: int, vs: seq<u32>): seq<bool>
    decreases |vs|
  {
    if vs == [] then []
    else
      var bns := BitWidths(vs[..Min(4, |vs|)]);
      ChooseFits(width, bns);
      var s := Choose(width, bns);
      var w := NextWidth(width, s);
      var n := Selectors[s].span;
      ToBits(s, 4) + Payload(vs[..n], w) + PackBits(w, vs[n..])
  }

  /**
   * The packer writes nothing for no values and otherwise at most 34 bits
   * per value: a four-bit selector per block and at most 30 bits per value.
   */
  lemma {:induction false} PackBitsSize(width: int, vs: seq<u32>)
    ensures PackBits(width, vs) == [] <==> vs == []
    ensures |PackBits(width, vs)| <= 34 * |vs|
    decreases |vs|
  {
    if vs != [] {
      var bns := BitWidths(vs[..Min(4, |vs|)]);
      ChooseFits(width, bns);
      var s := Choose(width, bns);
      var w := NextWidth(width, s);
      var n := Selectors[s].span;
      PayloadAtMost(vs[..n], w);
      PackBitsSize(w, vs[n..]);
    }
  }

  /** The first block of PackBits, with its selector, width and span named. */
  lemma PackHead(width: int, vs: seq<u32>, s: nat, w: int, n: nat)
    requires |vs| >= 1 && s == Choose(width, BitWidths(vs[..Min(4, |vs|)]))
    requires s < 16 && w == NextWidth(width, s) && n == Selectors[s].span
    ensures 1 <= n <= |vs| && 0 <= w <= MaxWidth
    ensures s != 0 ==> forall k :: 0 <= k < n ==> BitLength(vs[k]) <= w
    ensures PackBits(width, vs) == ToBits(s, 4) + Payload(vs[..n], w) + PackBits(w, vs[n..])
  {
    var bns := BitWidths(vs[..Min(4, |vs|)]);
    ChooseFits(width, bns);
    if s != 0 {
      forall k | 0 <= k < n
        ensures BitLength(vs[k]) <= w
      {
        assert bns[k] <= w;
      }
    }
  }

  lemma {:induction false} PayloadSnoc(vs: seq<u32>, v: u32, w: nat)
    ensures Payload(vs + [v], w) == Payload(vs, w) + ToBits(v, w)
    decreases |vs|
  {
    if vs == [] {
      assert Payload([v], w) == ToBits(v, w) + Payload([], w);
    } else {
      assert (vs + [v])[1..] == vs[1..] + [v];
      PayloadSnoc(vs[1..], v, w);
      AppendAssoc(ToBits(vs[0], w), Payload(vs[1..], w), ToBits(v, w));
    }
  }

  // ------------------------------------------------------------------
  // Decoding

  /**
   * One value in the running width, starting at index p of s; None when
   * the width is not one read(bc) handles or the read would leave no bit
   * unread. The span counts down.
   */
  function ValueAt(s: seq<bool>, p: nat, width: int, span: int): (r: Option<(u32, nat, int, int)>)
    requires p <= |s|
    ensures r.Some? ==> p <= r.value.1 <= |s| && r.value.2 == width && r.value.3 == span - 1
  {
    if width < 0 || width > 32 then None
    else if width == 0 then Some((0, p, width, span - 1))
    else if p + width >= |s| then None
    else
      ValBound(s, p, p + width);
      Pow2AtMost32(width);
      Some((Val(s, p, p + width), p + width, width, span - 1))
  }

  /**
   * One pass of the loop of read_delta_array at index p of s: when the span
   * is used up, a four-bit selector first sets the width and the span.
   */
  function NextValue(s: seq<bool>, p: nat, width: int, span: int): (r: Option<(u32, nat, int, int)>)
    requires p <= |s|
    ensures r.Some? ==> p <= r.value.1 <= |s|
  {
    if span != 0 then ValueAt(s, p, width, span)
    else if p + 4 >= |s| then None
    else
      ValBound(s, p, p + 4);
      Pow2Values();
      var sel := Val(s, p, p + 4);
      ValueAt(s, p + 4, NextWidth(width, sel), Selectors[sel].span)
  }

  /** xs in front of a decoded sequence. */
  function Prepend(xs: seq<u32>, r: Option<(seq<u32>, nat)>): Option<(seq<u32>, nat)>
  {
    match r
    case None => None
    case Some((ys, e)) => Some((xs + ys, e))
  }

  /** count values decoded from index p of s, and the index after them. */
  function DecodeValues(s: seq<bool>, p: nat, width: int, span: int, count: nat): Option<(seq<u32>, nat)>
    requires p <= |s|
    decreases count
  {
    if count == 0 then Some(([], p))
    else
      match NextValue(s, p, width, span)
      case None => None
      case Some((v, q, w, n)) => Prepend([v], DecodeValues(s, q, w, n, count - 1))
  }

  /** A successful decoding yields exactly count values and ends inside the stream, at or after p. */
  lemma {:induction false} DecodeValuesCount(s: seq<bool>, p: nat, width: int, span: int, count: nat)
    requires p <= |s|
    ensures var r := DecodeValues(s, p, width, span, count);
      r.Some? ==> |r.value.0| == count && p <= r.value.1 <= |s|
    decreases count
  {
    if count > 0 {
      var r := NextValue(s, p, width, span);
      if r.Some? {
        var (v, q, w, n) := r.value;
        DecodeValuesCount(s, q, w, n, count - 1);
      }
    }
  }

  /** A selector at index p sets width and span before the first value of a block is read. */
  lemma DecodeSelector(s: seq<bool>, p: nat, width: int, count: nat, sel: nat)
    requires p + 4 < |s| && count >= 1 && sel == Val(s, p, p + 4) && sel < 16
    ensures DecodeValues(s, p, width, 0, count) ==
            DecodeValues(s, p + 4, NextWidth(width, sel), Selectors[sel].span, count)
  {
    SelectorSpans(sel);
  }

  /** The values of block sit one after the other from index p of s, each in w bits, up to index q. */
  ghost predicate BlockAt(s: seq<bool>, p: nat, w: nat, block: seq<u32>, q: nat)
    ensures BlockAt(s, p, w, block, q) ==> p <= q <= |s|
    decreases |block|
  {
    if block == [] then p == q <= |s|
    else p + w <= |s| && Val(s, p, p + w) == block[0] as int && BlockAt(s, p + w, w, block[1..], q)
  }

  /** The payload bits of a block of values that fit in w bits hold each value in turn. */
  lemma {:induction false} PayloadBlock(s: seq<bool>, p: nat, w: nat, block: seq<u32>)
    requires At(s, p, Payload(block, w))
    requires forall k :: 0 <= k < |block| ==> block[k] < Pow2(w)
    ensures BlockAt(s, p, w, block, p + |Payload(block, w)|)
    decreases |block|
  {
    if block != [] {
      var v, rest := block[0], block[1..];
      PayloadCons(block, w);
      AtSplit(s, p, ToBits(v, w), Payload(rest, w), p + w);
      AtVal(s, p, v, w);
      DivModUnique(v, Pow2(w), 0, v);
      PayloadBlock(s, p + w, w, rest);
      assert p + |Payload(block, w)| == p + w + |Payload(rest, w)|;
    }
  }

  lemma PayloadCons(block: seq<u32>, w: nat)
    requires |block| >= 1
    ensures block == [block[0]] + block[1..]
    ensures Payload(block, w) == ToBits(block[0], w) + Payload(block[1..], w)
    ensures |ToBits(block[0], w)| == w
  {
  }

  /** The values of a block, each in w bits, decode back in order while the span lasts. */
  lemma {:induction false} DecodeBlock(s: seq<bool>, p: nat, w: nat, block: seq<u32>, count: nat, q: nat, c: nat)
    requires w <= MaxWidth && |block| <= count && c == count - |block|
    requires BlockAt(s, p, w, block, q) && q < |s|
    ensures DecodeValues(s, p, w, |block|, count) == Prepend(block, DecodeValues(s, q, w, 0, c))
    decreases |block|
  {
    if block == [] {
      PrependTwice([], [], DecodeValues(s, q, w, 0, c));
    } else {
      var v, rest := block[0], block[1..];
      assert block == [v] + rest;
      BlockValue(s, p, w, v, |block|, |rest|, count);
      DecodeBlock(s, p + w, w, rest, count - 1, q, c);
      Chain(DecodeValues(s, p, w, |block|, count), DecodeValues(s, p + w, w, |rest|, count - 1),
            DecodeValues(s, q, w, 0, c), v, rest, block);
    }
  }

  /** A value stored in the running width decodes while the span lasts. */
  lemma BlockValue(s: seq<bool>, p: nat, w: nat, v: u32, span: int, n: int, count: nat)
    requires w <= MaxWidth && p + w < |s| && Val(s, p, p + w) == v as int
    requires span >= 1 && n == span - 1 && count >= 1
    ensures DecodeValues(s, p, w, span, count) == Prepend([v], DecodeValues(s, p + w, w, n, count - 1))
  {
    var first: Option<(u32, nat, int, int)> := Some((v, p + w, w, n));
    assert NextValue(s, p, w, span) == first;
  }

  /** Two prepends in a row are one. */
  lemma Chain(x: Option<(seq<u32>, nat)>, y: Option<(seq<u32>, nat)>, t: Option<(seq<u32>, nat)>,
              v: u32, rest: seq<u32>, block: seq<u32>)
    requires x == Prepend([v], y)
    requires y == Prepend(rest, t)
    requires block == [v] + rest
    ensures x == Prepend(block, t)
  {
    PrependTwice([v], rest, t);
  }

  lemma PrependTwice(xs: seq<u32>, ys: seq<u32>, r: Option<(seq<u32>, nat)>)
    ensures Prepend(xs, Prepend(ys, r)) == Prepend(xs + ys, r)
    ensures Prepend([], r) == r
  {
    if r.Some? {
      AppendAssoc(xs, ys, r.value.0);
      assert [] + r.value.0 == r.value.0;
    }
  }

  /**
   * Decoding what the packer wrote for vs, from the same starting width,
   * gives back vs and ends at q, right after the packed bits; every value
   * must be below 2^30, and at least one bit must follow (the reader fetches
   * eagerly).
   */
  lemma {:induction false} PackRoundTrip(s: seq<bool>, p: nat, width: int, vs: seq<u32>, pk: seq<bool>, q: nat)
    requires pk == PackBits(width, vs) && At(s, p, pk) && q == p + |pk| && q < |s| && AllFit(vs)
    ensures DecodeValues(s, p, width, 0, |vs|) == Some((vs, q))
    decreases |vs|
  {
    if vs != [] {
      var sel := Choose(width, BitWidths(vs[..Min(4, |vs|)]));
      ChooseFits(width, BitWidths(vs[..Min(4, |vs|)]));
      var w, n := NextWidth(width, sel), Selectors[sel].span;
      PackHead(width, vs, sel, w, n);
      var block, rest := vs[..n], vs[n..];
      BlockFits(vs, n, w, sel == 0);
      var mid := PackSplit(s, p, sel, w, block, PackBits(w, rest));
      DecodeSelector(s, p, width, |vs|, sel);
      DecodeBlock(s, p + 4, w, block, |vs|, mid, |rest|);
      AllFitDrop(vs, n);
      PackRoundTrip(s, mid, w, rest, PackBits(w, rest), q);
      TakeDrop(vs, n);
      Chain2(DecodeValues(s, p, width, 0, |vs|), DecodeValues(s, p + 4, w, n, |vs|),
             DecodeValues(s, mid, w, 0, |rest|), block, rest, vs, q);
    }
  }

  /** Every value is below 2^30, so that it fits in kMaxWidth bits. */
  ghost predicate AllFit(vs: seq<u32>)
  {
    forall k :: 0 <= k < |vs| ==> vs[k] < Pow2(30)
  }

  lemma AllFitDrop(vs: seq<u32>, n: nat)
    requires n <= |vs| && AllFit(vs)
    ensures AllFit(vs[n..])
  {
    assert forall k :: 0 <= k < |vs| - n ==> vs[n..][k] == vs[n + k];
  }

  /** The values of a block fit its width: by the choice of selector, or because selector 0 uses 30 bits. */
  lemma BlockFits(vs: seq<u32>, n: nat, w: nat, widest: bool)
    requires n <= |vs| && w <= MaxWidth && (widest ==> w == MaxWidth) && AllFit(vs)
    requires !widest ==> forall k :: 0 <= k < n ==> BitLength(vs[k]) <= w
    ensures forall k :: 0 <= k < n ==> vs[..n][k] < Pow2(w)
  {
    forall k | 0 <= k < n
      ensures vs[k] < Pow2(w)
    {
      if !widest {
        BitLengthFits(vs[k], w);
      }
    }
  }

  /**
   * The bits of one block: the selector at p, the block's values from p + 4
   * to the returned index, and what follows from there.
   */
  lemma PackSplit(s: seq<bool>, p: nat, sel: nat, w: nat, block: seq<u32>, tail: seq<bool>) returns (mid: nat)
    requires sel < 16 && At(s, p, ToBits(sel, 4) + Payload(block, w) + tail)
    requires forall k :: 0 <= k < |block| ==> block[k] < Pow2(w)
    ensures Val(s, p, p + 4) == sel && BlockAt(s, p + 4, w, block, mid) && p + 4 <= mid
    ensures At(s, mid, tail) && mid + |tail| == p + |ToBits(sel, 4) + Payload(block, w) + tail|
  {
    var pay := Payload(block, w);
    mid := p + 4 + |pay|;
    AtSplit(s, p, ToBits(sel, 4) + pay, tail, mid);
    AtSplit(s, p, ToBits(sel, 4), pay, p + 4);
    SelectorAt(s, p, sel);
    PayloadBlock(s, p + 4, w, block);
  }

  /** A selector written in four bits reads back. */
  lemma SelectorAt(s: seq<bool>, p: nat, sel: nat)
    requires sel < 16 && At(s, p, ToBits(sel, 4))
    ensures Val(s, p, p + 4) == sel
  {
    AtVal(s, p, sel, 4);
    Pow2Values();
    DivModUnique(sel, 16, 0, sel);
  }

  /** Putting together the selector step, the first block and the rest. */
  lemma Chain2(x: Option<(seq<u32>, nat)>, y: Option<(seq<u32>, nat)>, z: Option<(seq<u32>, nat)>,
               block: seq<u32>, rest: seq<u32>, vs: seq<u32>, q: nat)
    requires x == y && y == Prepend(block, z) && z == Some((rest, q)) && vs == block + rest
    ensures x == Some((vs, q))
  {
  }

  // ------------------------------------------------------------------
  // The packer

  /** bit_width: shift v right until nothing is left, counting the shifts. */
  method BitWidth(v: u32) returns (r: nat)
    ensures r == BitLength(v) && r <= 32
    ensures r == 0 <==> v == 0
  {
    var x: nat := v;
    r := 0;
    while x > 0
      invariant r + BitLength(x) == BitLength(v)
    {
      x := x / 2;
      r := r + 1;
    }
    Pow2Values();
    BitLengthFits(v, 32);
  }

  /**
   * The selector search of compress_simple_array_selector over the bc
   * buffered bit widths in bn: the escape scores bn[0] - 30; a selector is
   * skipped when it covers more than bc values, when its width is outside
   * 0..30, or when a value it covers does not fit; the first selector with
   * the highest score wins.
   */
  method ChooseSelector(width: int, bn: array<int>, bc: nat) returns (s: nat)
    requires bn.Length == 4 && 1 <= bc <= 4
    ensures s == Choose(width, bn[..bc])
  {
    ghost var bns := bn[..bc];
    s := 0;
    var c := bn[0] - MaxWidth;
    for i := 1 to 16
      invariant Scan(Selectors, width, bns, i, s, c) == Choose(width, bns)
    {
      SelectorSpans(i);
      s, c := ConsiderSelector(Selectors, width, bn, bc, i, s, c);
    }
  }

  /** One pass of the selector search: selector i of table replaces s when it is usable and scores more than c. */
  method ConsiderSelector(table: seq<Selector>, width: int, bn: array<int>, bc: nat, i: nat, s: nat, c: int)
    returns (s': nat, c': int)
    requires bn.Length == 4 && 1 <= bc <= 4 && i < |table| && table[i].span >= 1
    ensures Scan(table, width, bn[..bc], i, s, c) == Scan(table, width, bn[..bc], i + 1, s', c')
  {
    s', c' := s, c;
    var span := table[i].span;
    var w := width + table[i].databits;
    if span <= bc && 0 <= w <= MaxWidth {
      var fits, waste := SelectorWaste(bn, bc, span, w);
      if fits {
        var n := (span - 1) * 4 - waste;
        if n > c {
          s', c' := i, n;
        }
      }
    }
  }

  /**
   * The fall-through switch on the span: whether the first span buffered
   * values fit in w bits, and how many bits they leave unused.
   */
  method SelectorWaste(bn: array<int>, bc: nat, span: nat, w: int) returns (fits: bool, waste: int)
    requires bn.Length == 4 && 1 <= span <= bc <= 4
    ensures fits == Fits(bn[..bc], w, span) && waste == Waste(bn[..bc], w, span)
  {
    fits, waste := true, 0;
    if span >= 4 {
      fits := fits && bn[3] <= w;
      waste := waste + (w - bn[3]);
    }
    if span >= 3 {
      fits := fits && bn[2] <= w;
      waste := waste + (w - bn[2]);
    }
    if span >= 2 {
      fits := fits && bn[1] <= w;
      waste := waste + (w - bn[1]);
    }
    fits := fits && bn[0] <= w;
    waste := waste + (w - bn[0]);
    WasteCases(bn[..bc], w, span);
  }

  /** Waste written out for the spans the switch handles, the widest value first. */
  lemma {:induction false} WasteCases(bns: seq<int>, w: int, span: nat)
    requires 1 <= span <= |bns| && span <= 4
    ensures Waste(bns, w, span) ==
      (if span >= 4 then w - bns[3] else 0) + (if span >= 3 then w - bns[2] else 0) +
      (if span >= 2 then w - bns[1] else 0) + (w - bns[0])
  {
    if span > 1 {
      WasteCases(bns, w, span - 1);
    }
  }


  /** The inner write loop: the first n buffered values, each in the running width. */
  method WriteValues(bits: BitWriter, dv: array<u32>, n: nat, width: nat)
    requires bits.Valid() && n <= dv.Length && width <= MaxWidth
    modifies bits
    ensures bits.Valid() && bits.written == old(bits.written) + Payload(dv[..n], width)
  {
    for i := 0 to n
      invariant bits.Valid() && bits.written == old(bits.written) + Payload(dv[..i], width)
    {
      bits.Write(dv[i], width);
      assert dv[..i + 1] == dv[..i] + [dv[i]];
      PayloadSnoc(dv[..i], dv[i], width);
      AppendAssoc(old(bits.written), Payload(dv[..i], width), ToBits(dv[i], width));
    }
  }

  /** With width 0 a block writes no value bits. */
  lemma {:induction false} PayloadZeroWidth(vs: seq<u32>)
    ensures Payload(vs, 0) == []
    decreases |vs|
  {
    if vs != [] {
      PayloadZeroWidth(vs[1..]);
    }
  }

  /**
   * Drops the n values of the block just written: the buffer count goes
   * down by n, and when values remain they are shifted to the front. The
   * buffer then holds the values of arr from index next on.
   */
  method Consume(bn: array<int>, dv: array<u32>, n: nat, bc: nat, ghost arr: seq<u32>, ghost first: nat, ghost next: nat)
    returns (bc': nat)
    requires first <= |arr| && Buffered(bn, dv, arr[first..], bc) && 1 <= n <= bc && next == first + n
    modifies bn, dv
    ensures bc' == bc - n && Buffered(bn, dv, arr[next..], bc')
  {
    bc' := bc - n;
    DropDrop(arr, first, n, next);
    if bc' > 0 {
      ghost var b0, d0 := bn[..], dv[..];
      ShiftDown(bn, dv, n);
      ShiftedBuffer(b0, d0, bn[..], dv[..], arr[first..], bc, n, arr[next..], bc');
    }
  }

  /** Moves the buffered values and bit widths that follow the first n to the front. */
  method ShiftDown(bn: array<int>, dv: array<u32>, n: nat)
    requires bn.Length == 4 && dv.Length == 4 && 1 <= n <= 4
    modifies bn, dv
    ensures forall j :: 0 <= j < 4 - n ==> bn[j] == old(bn[j + n]) && dv[j] == old(dv[j + n])
    ensures forall j :: 4 - n <= j < 4 ==> bn[j] == old(bn[j]) && dv[j] == old(dv[j])
  {
    for i := 0 to 4 - n
      invariant forall j :: 0 <= j < i ==> bn[j] == old(bn[j + n])
      invariant forall j :: 0 <= j < i ==> dv[j] == old(dv[j + n])
      invariant forall j :: i <= j < 4 ==> bn[j] == old(bn[j])
      invariant forall j :: i <= j < 4 ==> dv[j] == old(dv[j])
    {
      bn[i] := bn[i + n];
      dv[i] := dv[i + n];
    }
  }

  /** The buffer contents after the shift, as sequences: the k values of rest, which follow the first n of rem. */
  lemma ShiftedBuffer(b0: seq<int>, d0: seq<u32>, b1: seq<int>, d1: seq<u32>, rem: seq<u32>, bc: nat, n: nat,
                      rest: seq<u32>, k: nat)
    requires |b0| == |d0| == |b1| == |d1| == 4 && 1 <= n && k == bc - n && bc <= 4 && bc <= |rem| && rest == rem[n..]
    requires d0[..bc] == rem[..bc] && b0[..bc] == BitWidths(rem[..bc])
    requires forall j :: 0 <= j < 4 - n ==> b1[j] == b0[j + n] && d1[j] == d0[j + n]
    ensures d1[..k] == rest[..k] && b1[..k] == BitWidths(rest[..k])
  {
    forall j | 0 <= j < k
      ensures d1[j] == rest[j] && b1[j] == BitLength(rest[j])
    {
      assert d0[..bc][j + n] == rem[..bc][j + n];
      assert b0[..bc][j + n] == BitWidths(rem[..bc])[j + n];
    }
  }

  /**
   * The packer's buffer: the first bc entries of dv are the values vs
   * starts with, and bn holds their bit widths.
   */
  ghost predicate Buffered(bn: array<int>, dv: array<u32>, vs: seq<u32>, bc: nat)
    reads bn, dv
  {
    bn.Length == 4 && dv.Length == 4 && bc <= 4 && bc <= |vs| &&
    dv[..bc] == vs[..bc] && bn[..bc] == BitWidths(vs[..bc])
  }

  /**
   * compress_simple_array_selector: the values of arr go out block by block,
   * exactly as PackBits lays them out from the start width 8. Up to four
   * values are buffered with their bit widths; each pass of the outer loop
   * tops the buffer up, writes one block and shifts the values that remain
   * buffered to the front.
   */
  method CompressSimpleArraySelector(bits: BitWriter, arr: seq<u32>)
    requires bits.Valid()
    modifies bits
    ensures bits.Valid() && bits.written == old(bits.written) + PackBits(StartWidth, arr)
  {
    var width := StartWidth;
    var bn := new int[4];
    var dv := new u32[4];
    var bc: nat := 0;
    var a: nat := 0;
    ghost var first: nat := 0;
    assert arr[0..] == arr;
    while a != |arr| || bc > 0
      invariant bits.Valid() && 0 <= width <= MaxWidth && first + bc == a <= |arr|
      invariant Buffered(bn, dv, arr[first..], bc)
      invariant bits.written + PackBits(width, arr[first..]) == old(bits.written) + PackBits(StartWidth, arr)
      decreases |arr| - first
    {
      a, bc := Refill(bn, dv, bc, arr, a, first);
      var n;
      ghost var next;
      width, n, next := WriteBlock(bits, width, bn, dv, bc, arr, first);
      bc := Consume(bn, dv, n, bc, arr, first, next);
      first := next;
    }
    assert arr[|arr|..] == [];
  }

  /** The refill loop: buffer the next values of arr until four are buffered or none is left. */
  method Refill(bn: array<int>, dv: array<u32>, bc: nat, arr: seq<u32>, a: nat, ghost first: nat) returns (a': nat, bc': nat)
    requires first + bc == a <= |arr| && Buffered(bn, dv, arr[first..], bc)
    modifies bn, dv
    ensures first + bc' == a' <= |arr| && Buffered(bn, dv, arr[first..], bc')
    ensures bc' == Min(4, |arr| - first)
  {
    a', bc' := a, bc;
    while bc' < 4 && a' != |arr|
      invariant first + bc' == a' <= |arr| && Buffered(bn, dv, arr[first..], bc')
    {
      Push(bn, dv, bc', arr[a'], arr[first..]);
      a' := a' + 1;
      bc' := bc' + 1;
    }
  }

  /**
   * The block step of the outer loop: choose the selector for the buffered
   * values, which are the values of arr from index first on, and write it
   * and the block's n values in the new width. The rest of the packed
   * sequence then starts at index next.
   */
  method WriteBlock(bits: BitWriter, width: int, bn: array<int>, dv: array<u32>, bc: nat, ghost arr: seq<u32>, ghost first: nat)
    returns (width': int, n: nat, ghost next: nat)
    requires bits.Valid() && 0 <= width <= MaxWidth && first <= |arr|
    requires Buffered(bn, dv, arr[first..], bc) && 1 <= bc && bc == Min(4, |arr| - first)
    modifies bits
    ensures bits.Valid() && 0 <= width' <= MaxWidth && 1 <= n <= bc && next == first + n
    ensures bits.written + PackBits(width', arr[next..]) == old(bits.written) + PackBits(width, arr[first..])
  {
    var s := ChooseSelector(width, bn, bc);
    assert bn[..bc] == BitWidths(arr[first..][..Min(4, |arr[first..]|)]);
    ChooseFits(width, bn[..bc]);
    if s == 0 {
      width' := MaxWidth;
    } else {
      width' := width + Selectors[s].databits;
    }
    n := Selectors[s].span;
    PackHead(width, arr[first..], s, width', n);
    ghost var w0 := bits.written;
    bits.Write(s, 4);
    ghost var w1 := bits.written;
    TakeTake(dv[..], bc, n);
    TakeTake(arr[first..], bc, n);
    if width' > 0 {
      WriteValues(bits, dv, n, width');
    } else {
      PayloadZeroWidth(dv[..n]);
    }
    next := first + n;
    DropDrop(arr, first, n, next);
    WrittenBlock(w0, w1, bits.written, ToBits(s, 4), Payload(arr[first..][..n], width'), PackBits(width', arr[next..]),
                 PackBits(width, arr[first..]));
  }

  /** What one block adds to the written bits, regrouped against the rest of the packed sequence. */
  lemma WrittenBlock(w0: seq<bool>, w1: seq<bool>, w2: seq<bool>, t: seq<bool>, pay: seq<bool>, tail: seq<bool>, whole: seq<bool>)
    requires w1 == w0 + t && w2 == w1 + pay && whole == t + pay + tail
    ensures w2 + tail == w0 + whole
  {
    AppendAssoc(w0, t, pay);
    AppendAssoc(w0, t + pay, tail);
  }

  /** The refill step: the next value goes into the buffer, its bit width beside it. */
  method Push(bn: array<int>, dv: array<u32>, bc: nat, v: u32, ghost vs: seq<u32>)
    requires Buffered(bn, dv, vs, bc) && bc < 4 && bc < |vs| && v == vs[bc]
    modifies bn, dv
    ensures Buffered(bn, dv, vs, bc + 1)
  {
    dv[bc] := v;
    bn[bc] := BitWidth(dv[bc]);
    assert dv[..bc + 1] == old(dv[..bc]) + [v];
    assert vs[..bc + 1] == vs[..bc] + [v];
    assert bn[..bc + 1] == old(bn[..bc]) + [BitLength(v)];
  }

}
