/**
 * `combineSVGs(svgStr)`: every `<svg>` block of the input becomes a group placed below the
 * groups before it, inside one new `<svg>` whose attributes are merged from all blocks and
 * whose width, height and viewBox are computed: the width is the largest block width, the
 * height the sum of the block heights.
 *
 * The specification functions below take the blocks' fragments `fs` together with their
 * parsed attributes `bs` (`bs[k]` belongs to `fs[k]`); `Combined` ties them to the input.
 */
module Combine {
  import opened Builtins
  import opened AttrMaps
  import opened AttrParse
  import opened AttrMerge
  import opened SvgScan

  // ---------------------------------------------------------------------------
  // Sizes
  // ---------------------------------------------------------------------------

  /**
   * `attrs[key] ? parseFloat(attrs[key]) : 0`: a missing or empty value counts as 0, and a
   * present value is NaN when no digit follows its leading whitespace.
   */
  function Dimension(attrs: AttrList, key: string): (d: Num) {
    var v := Lookup(attrs, key);
    if Truthy(v) then ParseFloat(v.value) else Finite(0)
  }

  /** The three outcomes of `Dimension`: 0 for a missing or empty value, NaN, or a number. */
  lemma DimensionCases(attrs: AttrList, key: string)
    ensures Lookup(attrs, key).None? ==> Dimension(attrs, key) == Finite(0)
    ensures Lookup(attrs, key) == Some("") ==> Dimension(attrs, key) == Finite(0)
    ensures Dimension(attrs, key).NaN? <==> Truthy(Lookup(attrs, key)) && !LeadingDigit(Lookup(attrs, key).value)
  {
  }

  /** A size written as a whole number, possibly followed by a unit such as `px`, is that number. */
  lemma DimensionOfNumber(attrs: AttrList, key: string, n: nat, unit: string)
    requires Lookup(attrs, key) == Some(NatText(n) + unit)
    requires unit == [] || !IsDigit(unit[0])
    ensures Dimension(attrs, key) == Finite(n)
  {
    var v := NatText(n) + unit;
    assert v[..|NatText(n)|] == NatText(n);
    if unit == [] {
      assert v == NatText(n);
      NumTextRoundTrip(n);
    } else {
      assert v[|NatText(n)|] == unit[0];
      NumTextReadsBack(v, Finite(n));
    }
  }

  function Width(attrs: AttrList): (w: Num) {
    Dimension(attrs, "width")
  }

  function Height(attrs: AttrList): (h: Num) {
    Dimension(attrs, "height")
  }

  /** `a > b` on numbers, which is false when either side is NaN. */
  predicate Greater(a: Num, b: Num) {
    a.Finite? && b.Finite? && a.n > b.n
  }

  /**
   * A comparison with NaN on either side is false both ways; between numbers `>` is a strict
   * order in which any two different numbers are comparable.
   */
  lemma GreaterOrder(a: Num, b: Num, c: Num)
    ensures a.NaN? || b.NaN? ==> !Greater(a, b) && !Greater(b, a)
    ensures !Greater(a, a)
    ensures Greater(a, b) ==> !Greater(b, a)
    ensures Greater(a, b) && Greater(b, c) ==> Greater(a, c)
    ensures a.Finite? && b.Finite? && a != b ==> Greater(a, b) || Greater(b, a)
  {
  }

  /** `maxWidth` after the blocks: 0 at first, replaced by every width greater than it. */
  function MaxWidth(bs: seq<AttrList>): (width: Num)
    decreases |bs|
  {
    if bs == [] then Finite(0)
    else
      var m, w := MaxWidth(bs[..|bs| - 1]), Width(bs[|bs| - 1]);
      if Greater(w, m) then w else m
  }

  /** `offsetY` (and `totalHeight`) after the blocks: 0 at first, each block's height added. */
  function SumHeights(bs: seq<AttrList>): (height: Num)
    decreases |bs|
  {
    if bs == [] then Finite(0) else Add(SumHeights(bs[..|bs| - 1]), Height(bs[|bs| - 1]))
  }

  /** The width is the greatest width that is a number, or 0; a NaN width is passed over. */
  lemma {:induction false} MaxWidthIsMaximum(bs: seq<AttrList>)
    ensures MaxWidth(bs).Finite?
    ensures forall k :: 0 <= k < |bs| && Width(bs[k]).Finite? ==> Width(bs[k]).n <= MaxWidth(bs).n
    ensures MaxWidth(bs) == Finite(0) || exists k :: 0 <= k < |bs| && Width(bs[k]) == MaxWidth(bs)
    decreases |bs|
  {
    if bs != [] {
      var init := bs[..|bs| - 1];
      MaxWidthIsMaximum(init);
      assert forall k :: 0 <= k < |init| ==> bs[k] == init[k];
      if MaxWidth(bs) != Finite(0) && MaxWidth(bs) != Width(bs[|bs| - 1]) {
        var k :| 0 <= k < |init| && Width(init[k]) == MaxWidth(init);
        assert Width(bs[k]) == MaxWidth(bs);
      }
    }
  }

  /** The total height is NaN exactly when some block's height is NaN. */
  lemma {:induction false} SumHeightsNaN(bs: seq<AttrList>)
    ensures SumHeights(bs) == NaN <==> exists k :: 0 <= k < |bs| && Height(bs[k]) == NaN
    decreases |bs|
  {
    if bs != [] {
      var init := bs[..|bs| - 1];
      SumHeightsNaN(init);
      assert SumHeights(bs) == Add(SumHeights(init), Height(bs[|bs| - 1]));
      if SumHeights(bs) == NaN {
        if SumHeights(init) == NaN {
          var k :| 0 <= k < |init| && Height(init[k]) == NaN;
          assert bs[k] == init[k];
        } else {
          assert Height(bs[|bs| - 1]) == NaN;
        }
      } else {
        forall k | 0 <= k < |bs| ensures Height(bs[k]) != NaN {
          if k < |init| {
            assert bs[k] == init[k];
          }
        }
      }
    }
  }

  /** The heights of two runs of blocks add up: the offsets of the second run start at the first's total. */
  lemma {:induction false} SumHeightsAppend(a: seq<AttrList>, b: seq<AttrList>)
    ensures SumHeights(a + b) == Add(SumHeights(a), SumHeights(b))
    decreases |b|
  {
    if b == [] {
      assert a + b == a;
      AddLaws(SumHeights(a), Finite(0), Finite(0));
    } else {
      var b', x := b[..|b| - 1], b[|b| - 1];
      assert (a + b)[..|a + b| - 1] == a + b';
      SumHeightsAppend(a, b');
      AddLaws(SumHeights(a), SumHeights(b'), Height(x));
    }
  }

  /** The offset of a block is the sum of the heights of the blocks before it. */
  lemma OffsetStep(bs: seq<AttrList>, j: nat)
    requires j < |bs|
    ensures SumHeights(bs[..j + 1]) == Add(SumHeights(bs[..j]), Height(bs[j]))
  {
    assert bs[..j + 1][..j] == bs[..j];
  }

  /**
   * The blocks are stacked without overlap: when the offset of block `k` is a number, every
   * earlier block `j` lies wholly above it, from its own offset down by its height.
   */
  lemma Stacked(bs: seq<AttrList>, j: nat, k: nat)
    requires j < k <= |bs| && SumHeights(bs[..k]).Finite?
    ensures SumHeights(bs[..j]).Finite? && Height(bs[j]).Finite?
    ensures SumHeights(bs[..j]).n + Height(bs[j]).n <= SumHeights(bs[..k]).n
  {
    var upper, lower := bs[..j + 1], bs[j + 1..k];
    assert SumHeights(bs[..k]) == Add(SumHeights(upper), SumHeights(lower)) by {
      assert bs[..k] == upper + lower;
      SumHeightsAppend(upper, lower);
    }
    assert SumHeights(upper) == Add(SumHeights(bs[..j]), Height(bs[j])) by {
      OffsetStep(bs, j);
    }
  }

  // ---------------------------------------------------------------------------
  // The merged attributes
  // ---------------------------------------------------------------------------

  /** `mergedSvgAttributes` after the blocks: each block's attributes merged in turn into `{}`. */
  function MergeAll(bs: seq<AttrList>): (merged: AttrList)
    decreases |bs|
  {
    if bs == [] then [] else Merged(MergeAll(bs[..|bs| - 1]), bs[|bs| - 1])
  }

  /** The combined `<svg>` gets no `width`, `height` or `viewBox` from the blocks. */
  lemma {:induction false} MergeAllNoReserved(bs: seq<AttrList>)
    ensures forall k :: k in Reserved ==> k !in Keys(MergeAll(bs))
    decreases |bs|
  {
    if bs != [] {
      MergeAllNoReserved(bs[..|bs| - 1]);
      MergedNoReserved(MergeAll(bs[..|bs| - 1]), bs[|bs| - 1]);
    }
  }

  /** The merged attributes name each key once. */
  lemma {:induction false} MergeAllUnique(bs: seq<AttrList>)
    ensures UniqueKeys(MergeAll(bs))
    decreases |bs|
  {
    if bs != [] {
      MergeAllUnique(bs[..|bs| - 1]);
      MergedUnique(MergeAll(bs[..|bs| - 1]), bs[|bs| - 1]);
    }
  }

  /** A key that no block has a non-empty value for has no non-empty merged value either. */
  lemma {:induction false} MergeAllNoneTruthy(bs: seq<AttrList>, k: string)
    requires forall b :: b in bs ==> UniqueKeys(b)
    requires k != "class" && k !in Reserved
    requires forall i :: 0 <= i < |bs| ==> !Truthy(Lookup(bs[i], k))
    ensures !Truthy(Lookup(MergeAll(bs), k))
    decreases |bs|
  {
    if bs != [] {
      var init, last := bs[..|bs| - 1], bs[|bs| - 1];
      assert forall i :: 0 <= i < |init| ==> init[i] == bs[i];
      assert forall b :: b in init ==> b in bs;
      assert last in bs;
      MergeAllNoneTruthy(init, k);
      MergedFirstWins(MergeAll(init), last, k);
    }
  }

  /**
   * A key other than `class` takes its value from the first block that gives it a non-empty
   * value; later blocks do not change it.
   */
  lemma {:induction false} MergeAllFirstWins(bs: seq<AttrList>, k: string, j: nat)
    requires forall b :: b in bs ==> UniqueKeys(b)
    requires k != "class" && k !in Reserved
    requires j < |bs| && Truthy(Lookup(bs[j], k))
    requires forall i :: 0 <= i < j ==> !Truthy(Lookup(bs[i], k))
    ensures Lookup(MergeAll(bs), k) == Lookup(bs[j], k)
    decreases |bs|
  {
    var init, last := bs[..|bs| - 1], bs[|bs| - 1];
    assert forall i :: 0 <= i < |init| ==> init[i] == bs[i];
    assert forall b :: b in init ==> b in bs;
    assert last in bs;
    MergedFirstWins(MergeAll(init), last, k);
    if j == |bs| - 1 {
      MergeAllNoneTruthy(init, k);
    } else {
      MergeAllFirstWins(init, k, j);
    }
  }

  /** The keys of every block's attributes, block after block. */
  function AllKeys(bs: seq<AttrList>): (ks: seq<string>)
    decreases |bs|
  {
    if bs == [] then [] else AllKeys(bs[..|bs| - 1]) + Keys(bs[|bs| - 1])
  }

  /**
   * The merged attributes hold every key of the blocks once, in the order the keys first
   * appear, except `width`, `height` and `viewBox`.
   */
  lemma {:induction false} MergeAllKeys(bs: seq<AttrList>)
    requires forall b :: b in bs ==> UniqueKeys(b)
    ensures Keys(MergeAll(bs)) == Without(Dedup(AllKeys(bs)), Reserved)
    decreases |bs|
  {
    if bs != [] {
      var init, last := bs[..|bs| - 1], bs[|bs| - 1];
      assert forall b :: b in init ==> b in bs;
      assert last in bs;
      MergeAllKeys(init);
      MergedKeys(MergeAll(init), last);
      SeenKeysStep(AllKeys(init), Keys(last), Keys(MergeAll(init)));
    }
  }

  /** One block's new keys, as `MergedKeys` states them, extend the keys seen so far. */
  lemma SeenKeysStep(seen: seq<string>, ks: seq<string>, merged: seq<string>)
    requires NoDup(ks) && merged == Without(Dedup(seen), Reserved)
    ensures merged + Without(ks, merged + Reserved) == Without(Dedup(seen + ks), Reserved)
  {
    DedupAppend(seen, ks);
    WithoutAppend(Dedup(seen), Dedup(Without(ks, seen)), Reserved);
    WithoutNoDup(ks, seen);
    DedupOfNoDup(Without(ks, seen));
    WithoutTwice(ks, seen, Reserved);
    DedupMembers(seen);
    WithoutMembers(Dedup(seen), Reserved);
    WithoutSame(ks, seen + Reserved, merged + Reserved);
  }

  /** A key that no block has does not appear in the merged attributes. */
  lemma {:induction false} MergeAllAbsent(bs: seq<AttrList>, k: string)
    requires forall i :: 0 <= i < |bs| ==> k !in Keys(bs[i])
    ensures k !in Keys(MergeAll(bs))
    decreases |bs|
  {
    if bs != [] {
      var init := bs[..|bs| - 1];
      assert forall i :: 0 <= i < |init| ==> init[i] == bs[i];
      MergeAllAbsent(init, k);
      MergedUntouched(MergeAll(init), bs[|bs| - 1], k);
    }
  }

  // ---------------------------------------------------------------------------
  // The output text
  // ---------------------------------------------------------------------------

  /** One block's content in a group moved down by `y`. */
  function Wrap(y: Num, inner: string): (group: string) {
    "<g transform=\"translate(0, " + NumText(y) + ")\">\n" + inner + "\n</g>\n"
  }

  /** `parseFloat` of the text after `pre`, when `x`'s text and then `c` follow `pre` in `r`. */
  lemma NumberAfter(r: string, pre: string, x: Num, c: char)
    requires pre + NumText(x) + [c] <= r && !IsDigit(c)
    ensures ParseFloat(r[|pre|..]) == x
  {
    var w, u := NumText(x), r[|pre|..];
    assert r[..|pre + w + [c]|] == pre + w + [c];
    assert u[..|w|] == (pre + w + [c])[|pre|..|pre| + |w|];
    assert u[|w|] == c;
    NumTextReadsBack(u, x);
  }

  /**
   * A wrapper reads back: `parseFloat` of the text after `translate(0, ` is the offset, and
   * the block's content sits unchanged right before the closing `</g>`.
   */
  lemma WrapReadsBack(y: Num, inner: string)
    ensures var g, h := Wrap(y, inner), "<g transform=\"translate(0, ";
      && h <= g && ParseFloat(g[|h|..]) == y
      && |inner| + 6 <= |g| && g[|g| - 6 - |inner|..|g| - 6] == inner && g[|g| - 6..] == "\n</g>\n"
  {
    var g, h := Wrap(y, inner), "<g transform=\"translate(0, ";
    var b := h + NumText(y) + ")\">\n";
    assert g == (b + inner) + "\n</g>\n";
    assert h + NumText(y) + [')'] <= g by {
      PrefixOfAppend(b + inner, "\n</g>\n");
      PrefixStep(b, inner, g);
      PrefixStep(h + NumText(y) + [')'], "\">\n", g);
    }
    assert ParseFloat(g[|h|..]) == y by {
      NumberAfter(g, h, y, ')');
    }
    assert g[|b|..|b| + |inner|] == inner;
  }

  /** `combinedInner`: each block's content wrapped, moved down by the heights before it. */
  function Wrapped(fs: seq<Fragment>, bs: seq<AttrList>): (combinedInner: string)
    requires |fs| == |bs|
    decreases |fs|
  {
    if fs == [] then ""
    else Wrapped(fs[..|fs| - 1], bs[..|bs| - 1]) + Wrap(SumHeights(bs[..|bs| - 1]), fs[|fs| - 1].inner)
  }

  /** The wrappers of the first `k` blocks begin the wrapped contents. */
  lemma {:induction false} WrappedPrefix(fs: seq<Fragment>, bs: seq<AttrList>, k: nat)
    requires |fs| == |bs| && k <= |fs|
    ensures Wrapped(fs[..k], bs[..k]) <= Wrapped(fs, bs)
    decreases |fs|
  {
    if k < |fs| {
      var fs', bs' := fs[..|fs| - 1], bs[..|bs| - 1];
      WrappedPrefix(fs', bs', k);
      assert fs'[..k] == fs[..k] && bs'[..k] == bs[..k];
    } else {
      assert fs[..k] == fs && bs[..k] == bs;
    }
  }

  /**
   * Block `k` gets exactly one wrapper, right after the wrappers of the blocks before it,
   * moved down by the sum of their heights (0 for the first block).
   */
  lemma WrapperAt(fs: seq<Fragment>, bs: seq<AttrList>, k: nat)
    requires |fs| == |bs| && k < |fs|
    ensures Wrapped(fs[..k], bs[..k]) + Wrap(SumHeights(bs[..k]), fs[k].inner) <= Wrapped(fs, bs)
  {
    BlockStep(fs, bs, k);
    WrappedPrefix(fs, bs, k + 1);
  }

  /** The returned text around the attribute text, the size and the wrapped contents. */
  function Render(attrText: string, width: Num, height: Num, inner: string): (svg: string) {
    "\n  <svg" + attrText
    + "\n    width=\"" + NumText(width) + "\""
    + "\n    height=\"" + NumText(height) + "\""
    + "\n    viewBox=\"0 0 " + NumText(width) + " " + NumText(height) + "\""
    + "\n  >\n    " + inner
    + "\n  </svg>\n  "
  }

  /**
   * The returned text reads back: the attribute text follows `<svg` directly, `parseFloat`
   * at the `width` and `height` values and at the two sizes in the `viewBox` gives the
   * width and the height, and the content sits unchanged inside the tag.
   */
  lemma RenderReadsBack(attrText: string, width: Num, height: Num, inner: string)
    ensures var r, w, h := Render(attrText, width, height, inner), NumText(width), NumText(height);
      var p0 := "\n  <svg" + attrText + "\n    width=\"";
      var p1 := p0 + w + "\"" + "\n    height=\"";
      var p2 := p1 + h + "\"" + "\n    viewBox=\"0 0 ";
      var p3 := p2 + w + " ";
      var p4 := p3 + h + "\"" + "\n  >\n    ";
      && "\n  <svg" + attrText <= r
      && ParseFloat(r[|p0|..]) == width && ParseFloat(r[|p1|..]) == height
      && ParseFloat(r[|p2|..]) == width && ParseFloat(r[|p3|..]) == height
      && p4 + inner <= r
  {
    var r, w, h := Render(attrText, width, height, inner), NumText(width), NumText(height);
    var p0 := "\n  <svg" + attrText + "\n    width=\"";
    var p1 := p0 + w + "\"" + "\n    height=\"";
    var p2 := p1 + h + "\"" + "\n    viewBox=\"0 0 ";
    var p3 := p2 + w + " ";
    RenderPrefixes(attrText, width, height, inner);
    assert ParseFloat(r[|p0|..]) == width by {
      NumberAfter(r, p0, width, '"');
    }
    assert ParseFloat(r[|p1|..]) == height by {
      NumberAfter(r, p1, height, '"');
    }
    assert ParseFloat(r[|p2|..]) == width by {
      NumberAfter(r, p2, width, ' ');
    }
    assert ParseFloat(r[|p3|..]) == height by {
      NumberAfter(r, p3, height, '"');
    }
  }

  /** The pieces that begin the returned text, one inside the next. */
  lemma RenderPrefixes(attrText: string, width: Num, height: Num, inner: string)
    ensures var r, w, h := Render(attrText, width, height, inner), NumText(width), NumText(height);
      var s0 := "\n  <svg" + attrText;
      var p0 := s0 + "\n    width=\"";
      var q0 := p0 + w + "\"";
      var p1 := q0 + "\n    height=\"";
      var q1 := p1 + h + "\"";
      var p2 := q1 + "\n    viewBox=\"0 0 ";
      var p3 := p2 + w + " ";
      var q3 := p3 + h + "\"";
      var p4 := q3 + "\n  >\n    ";
      s0 <= r && q0 <= r && q1 <= r && p3 <= r && q3 <= r && p4 + inner <= r
  {
    var r, w, h := Render(attrText, width, height, inner), NumText(width), NumText(height);
    var s0 := "\n  <svg" + attrText;
    var p0 := s0 + "\n    width=\"";
    var q0 := p0 + w + "\"";
    var p1 := q0 + "\n    height=\"";
    var q1 := p1 + h + "\"";
    var p2 := q1 + "\n    viewBox=\"0 0 ";
    var p3 := p2 + w + " ";
    var q3 := p3 + h + "\"";
    var p4 := q3 + "\n  >\n    ";
    PrefixOfAppend(p4 + inner, "\n  </svg>\n  ");
    PrefixStep(p4, inner, r);
    PrefixStep(q3, "\n  >\n    ", r);
    PrefixStep(p3 + h, "\"", r);
    PrefixStep(p3, h, r);
    PrefixStep(p2 + w, " ", r);
    PrefixStep(p2, w, r);
    PrefixStep(q1, "\n    viewBox=\"0 0 ", r);
    PrefixStep(p1 + h, "\"", r);
    PrefixStep(p1, h, r);
    PrefixStep(q0, "\n    height=\"", r);
    PrefixStep(p0 + w, "\"", r);
    PrefixStep(p0, w, r);
    PrefixStep(s0, "\n    width=\"", r);
  }

  /** The output for the blocks `fs` with attributes `bs`. */
  function CombineBlocks(fs: seq<Fragment>, bs: seq<AttrList>): (svg: string)
    requires |fs| == |bs|
  {
    Render(AttrText(MergeAll(bs)), MaxWidth(bs), SumHeights(bs), Wrapped(fs, bs))
  }

  /** The attributes of each block, as `parseAttributes` reads its attribute text. */
  function BlockAttrs(fs: seq<Fragment>): (bs: seq<AttrList>)
    ensures |bs| == |fs|
  {
    seq(|fs|, k requires 0 <= k < |fs| => Parsed(fs[k].attrText))
  }

  /** `combineSVGs(svgStr)`. */
  function Combined(svgStr: string): (svg: string) {
    var fs := Fragments(svgStr);
    CombineBlocks(fs, BlockAttrs(fs))
  }

  /** The text `combineSVGs` returns for an input without blocks. */
  const EmptyOutput: string :=
    "\n  <svg\n    width=\"0\"\n    height=\"0\"\n    viewBox=\"0 0 0 0\"\n  >\n    \n  </svg>\n  "

  /** Without blocks the result has size 0 by 0, no attributes and no groups. */
  lemma CombineNoBlocks(svgStr: string)
    requires Fragments(svgStr) == []
    ensures Combined(svgStr) == EmptyOutput
  {
    assert BlockAttrs([]) == [];
    assert MergeAll([]) == [] && AttrText([]) == "";
    assert Wrapped([], []) == "";
    assert MaxWidth([]) == Finite(0) && SumHeights([]) == Finite(0);
    assert Combined(svgStr) == Render("", Finite(0), Finite(0), "");
    EmptyRender();
  }

  /** The frame of the output with nothing in it, written out piece by piece. */
  lemma EmptyRender()
    ensures Render("", Finite(0), Finite(0), "") == EmptyOutput
  {
    assert NumText(Finite(0)) == "0" by { assert DigitChar(0) == '0'; }
    EmptySize();
    EmptyViewBox();
    EmptyClose();
  }

  /** The opening of that text up to the height. */
  lemma EmptySize()
    ensures "\n  <svg" + "" + "\n    width=\"" + "0" + "\"" + "\n    height=\"" + "0" + "\""
         == "\n  <svg\n    width=\"0\"\n    height=\"0\""
  {
    assert "\n  <svg" + "" == "\n  <svg";
    assert "\n  <svg" + "\n    width=\"" == "\n  <svg\n    width=\"";
    assert "\n  <svg\n    width=\"" + "0" == "\n  <svg\n    width=\"0";
    assert "\n  <svg\n    width=\"0" + "\"" == "\n  <svg\n    width=\"0\"";
    assert "\n  <svg\n    width=\"0\"" + "\n    height=\"" == "\n  <svg\n    width=\"0\"\n    height=\"";
    assert "\n  <svg\n    width=\"0\"\n    height=\"" + "0" == "\n  <svg\n    width=\"0\"\n    height=\"0";
  }

  /** The viewBox of that text. */
  lemma EmptyViewBox()
    ensures "\n  <svg\n    width=\"0\"\n    height=\"0\"" + "\n    viewBox=\"0 0 " + "0" + " " + "0" + "\""
         == "\n  <svg\n    width=\"0\"\n    height=\"0\"\n    viewBox=\"0 0 0 0\""
  {
    assert "\n  <svg\n    width=\"0\"\n    height=\"0\"" + "\n    viewBox=\"0 0 " == "\n  <svg\n    width=\"0\"\n    height=\"0\"\n    viewBox=\"0 0 ";
    assert "\n  <svg\n    width=\"0\"\n    height=\"0\"\n    viewBox=\"0 0 " + "0" == "\n  <svg\n    width=\"0\"\n    height=\"0\"\n    viewBox=\"0 0 0";
    assert "\n  <svg\n    width=\"0\"\n    height=\"0\"\n    viewBox=\"0 0 0" + " " == "\n  <svg\n    width=\"0\"\n    height=\"0\"\n    viewBox=\"0 0 0 ";
    assert "\n  <svg\n    width=\"0\"\n    height=\"0\"\n    viewBox=\"0 0 0 " + "0" == "\n  <svg\n    width=\"0\"\n    height=\"0\"\n    viewBox=\"0 0 0 0";
  }

  /** The end of that text after the viewBox. */
  lemma EmptyClose()
    ensures "\n  <svg\n    width=\"0\"\n    height=\"0\"\n    viewBox=\"0 0 0 0\"" + "\n  >\n    " + "" + "\n  </svg>\n  "
         == EmptyOutput
  {
    assert "\n  <svg\n    width=\"0\"\n    height=\"0\"\n    viewBox=\"0 0 0 0\"" + "\n  >\n    "
        == "\n  <svg\n    width=\"0\"\n    height=\"0\"\n    viewBox=\"0 0 0 0\"\n  >\n    ";
    assert "\n  <svg\n    width=\"0\"\n    height=\"0\"\n    viewBox=\"0 0 0 0\"\n  >\n    " + ""
        == "\n  <svg\n    width=\"0\"\n    height=\"0\"\n    viewBox=\"0 0 0 0\"\n  >\n    ";
  }

  /** An input without `<svg` in any case gives that result. */
  lemma CombineNoSvg(svgStr: string)
    requires forall i :: !OpenAt(svgStr, i)
    ensures Combined(svgStr) == EmptyOutput
  {
    NoOpenNoFragments(svgStr);
    CombineNoBlocks(svgStr);
  }

  /** The parsed attributes of every block name each key once. */
  lemma BlockAttrsUnique(fs: seq<Fragment>)
    ensures forall b :: b in BlockAttrs(fs) ==> UniqueKeys(b)
  {
    forall b | b in BlockAttrs(fs) ensures UniqueKeys(b) {
      var k :| 0 <= k < |fs| && BlockAttrs(fs)[k] == b;
      PutAllKeepsUnique([], Pairs(fs[k].attrText, 0));
    }
  }

  /** What one more block adds to each quantity the loop keeps. */
  lemma BlockStep(fs: seq<Fragment>, bs: seq<AttrList>, i: nat)
    requires |fs| == |bs| && i < |fs|
    ensures MergeAll(bs[..i + 1]) == Merged(MergeAll(bs[..i]), bs[i])
    ensures SumHeights(bs[..i + 1]) == Add(SumHeights(bs[..i]), Height(bs[i]))
    ensures MaxWidth(bs[..i + 1])
         == if Greater(Width(bs[i]), MaxWidth(bs[..i])) then Width(bs[i]) else MaxWidth(bs[..i])
    ensures Wrapped(fs[..i + 1], bs[..i + 1]) == Wrapped(fs[..i], bs[..i]) + Wrap(SumHeights(bs[..i]), fs[i].inner)
  {
    assert bs[..i + 1][..i] == bs[..i];
    assert fs[..i + 1][..i] == fs[..i];
  }

  // ---------------------------------------------------------------------------
  // The function itself
  // ---------------------------------------------------------------------------

  /** The loop that writes the merged attributes out as ` key="value"` pieces, in order. */
  method AttributeText(entries: AttrList) returns (mergedAttrString: string)
    ensures mergedAttrString == AttrText(entries)
  {
    mergedAttrString := "";
    for j := 0 to |entries|
      invariant mergedAttrString == AttrText(entries[..j])
    {
      var key, value := entries[j].0, entries[j].1;
      AttrTextSnoc(entries[..j], key, value);
      assert entries[..j + 1] == entries[..j] + [(key, value)];
      mergedAttrString := mergedAttrString + (" " + key + "=\"" + value + "\"");
    }
    assert entries[..|entries|] == entries;
  }

  /** `combineSVGs(svgStr)`: the loop over the blocks, then the merged attributes and the size written out. */
  method CombineSVGs(svgStr: string) returns (svg: string)
    ensures svg == Combined(svgStr)
  {
    var svgMatches := Fragments(svgStr);
    ghost var bs := BlockAttrs(svgMatches);
    var mergedSvgAttributes := new AttributeSet();
    var offsetY := Finite(0);
    var combinedInner := "";
    var maxWidth := Finite(0);
    var totalHeight := Finite(0);
    for i := 0 to |svgMatches|
      invariant mergedSvgAttributes.entries == MergeAll(bs[..i])
      invariant offsetY == SumHeights(bs[..i]) && totalHeight == offsetY
      invariant maxWidth == MaxWidth(bs[..i])
      invariant combinedInner == Wrapped(svgMatches[..i], bs[..i])
    {
      var svgAttributes, innerContent := svgMatches[i].attrText, svgMatches[i].inner;
      var childAttr := ParseAttributes(svgAttributes);
      MergeAttributes(mergedSvgAttributes, childAttr);
      var childWidth := Dimension(childAttr, "width");
      var childHeight := Dimension(childAttr, "height");
      if Greater(childWidth, maxWidth) {
        maxWidth := childWidth;
      }
      var currentY := offsetY;
      offsetY := Add(offsetY, childHeight);
      totalHeight := offsetY;
      combinedInner := combinedInner + Wrap(currentY, innerContent);
      BlockStep(svgMatches, bs, i);
    }
    assert bs[..|svgMatches|] == bs;
    assert svgMatches[..|svgMatches|] == svgMatches;

    var mergedAttrString := AttributeText(mergedSvgAttributes.entries);
    svg := Render(mergedAttrString, maxWidth, totalHeight, combinedInner);
  }
}
