/**
 * The `<svg ...>...</svg>` blocks `combineSVGs` finds with `/<svg([^>]*)>([\s\S]*?)<\/svg>/gi`
 * and `matchAll`. Each attempt at a position reads `<svg` in either case, then everything up
 * to the first `>` (the attribute text), then everything up to the first closing tag
 * `</svg>` in either case (the inner content). The matches are the leftmost attempt that
 * succeeds, then the leftmost one after its end, and so on.
 */
module SvgScan {
  import opened Builtins

  /** `<svg` at `i`, its letters in either case. */
  predicate OpenAt(s: string, i: nat) {
    && i + 4 <= |s|
    && s[i] == '<'
    && (s[i + 1] == 's' || s[i + 1] == 'S')
    && (s[i + 2] == 'v' || s[i + 2] == 'V')
    && (s[i + 3] == 'g' || s[i + 3] == 'G')
  }

  /** `</svg>` at `i`, its letters in either case. */
  predicate CloseAt(s: string, i: nat) {
    && i + 6 <= |s|
    && s[i] == '<'
    && s[i + 1] == '/'
    && (s[i + 2] == 's' || s[i + 2] == 'S')
    && (s[i + 3] == 'v' || s[i + 3] == 'V')
    && (s[i + 4] == 'g' || s[i + 4] == 'G')
    && s[i + 5] == '>'
  }

  /** Where one match lies: `<svg` at `start`, the first `>` at `gt`, `</svg>` at `close`. */
  datatype SvgMatch = SvgMatch(start: nat, gt: nat, close: nat)

  predicate Fits(s: string, m: SvgMatch) {
    m.start + 4 <= m.gt < m.close && m.close + 6 <= |s|
  }

  /** The first closing tag at or after `from`: how far the lazy `[\s\S]*?` reaches. */
  function CloseFrom(s: string, from: nat): (r: Option<nat>)
    requires from <= |s|
    ensures r.Some? ==> from <= r.value && r.value + 6 <= |s|
    decreases |s| - from
  {
    if from + 6 > |s| then None
    else if CloseAt(s, from) then Some(from)
    else CloseFrom(s, from + 1)
  }

  /** `CloseFrom` finds the first closing tag, and finds none only when there is none. */
  lemma {:induction false} CloseFromFirst(s: string, from: nat)
    requires from <= |s|
    ensures CloseFrom(s, from).Some? ==> CloseAt(s, CloseFrom(s, from).value)
    ensures CloseFrom(s, from).Some? ==> forall t :: from <= t < CloseFrom(s, from).value ==> !CloseAt(s, t)
    ensures CloseFrom(s, from).None? ==> forall t :: from <= t ==> !CloseAt(s, t)
    decreases |s| - from
  {
    if from + 6 <= |s| && !CloseAt(s, from) {
      CloseFromFirst(s, from + 1);
    }
  }

  /** `CloseFrom` finds the closing tag at `c` when no earlier one follows `from`. */
  lemma {:induction false} CloseFromAt(s: string, from: nat, c: nat)
    requires from <= c && CloseAt(s, c)
    requires forall t :: from <= t < c ==> !CloseAt(s, t)
    ensures CloseFrom(s, from) == Some(c)
    decreases c - from
  {
    if from < c {
      CloseFromAt(s, from + 1, c);
    }
  }

  /**
   * The attempt at `i`: `<svg`; then `[^>]*` up to the first `>` (backing off from it
   * cannot help, since `>` must follow); then the lazy `[\s\S]*?` up to the first closing tag.
   */
  function SvgAt(s: string, i: nat): (r: Option<SvgMatch>)
    requires i <= |s|
    ensures r.Some? ==> r.value.start == i && Fits(s, r.value)
  {
    if !OpenAt(s, i) then None
    else
      var g := IndexOf(s, '>', i + 4);
      if g.None? then None
      else
        var c := CloseFrom(s, g.value + 1);
        if c.None? then None else Some(SvgMatch(i, g.value, c.value))
  }

  /** What a successful attempt has read. */
  lemma SvgAtShape(s: string, i: nat)
    requires i <= |s| && SvgAt(s, i).Some?
    ensures var m := SvgAt(s, i).value;
      && OpenAt(s, i) && s[m.gt] == '>' && CloseAt(s, m.close)
      && (forall t :: i + 4 <= t < m.gt ==> s[t] != '>')
      && (forall t :: m.gt + 1 <= t < m.close ==> !CloseAt(s, t))
  {
    IndexOfFirst(s, '>', i + 4);
    CloseFromFirst(s, SvgAt(s, i).value.gt + 1);
  }

  /** The leftmost successful attempt at or after `from`. */
  function NextSvg(s: string, from: nat): (r: Option<SvgMatch>)
    requires from <= |s|
    ensures r.Some? ==> from <= r.value.start && Fits(s, r.value)
    decreases |s| - from
  {
    var m := SvgAt(s, from);
    if m.Some? then m
    else if from == |s| then None
    else NextSvg(s, from + 1)
  }

  /** `NextSvg` is the attempt at its own start, and every earlier attempt fails. */
  lemma {:induction false} NextSvgLeftmost(s: string, from: nat)
    requires from <= |s|
    ensures NextSvg(s, from).Some? ==> SvgAt(s, NextSvg(s, from).value.start) == NextSvg(s, from)
    ensures NextSvg(s, from).Some? ==>
      forall i :: from <= i < NextSvg(s, from).value.start ==> SvgAt(s, i).None?
    ensures NextSvg(s, from).None? ==> forall i :: from <= i <= |s| ==> SvgAt(s, i).None?
    decreases |s| - from
  {
    if SvgAt(s, from).None? && from < |s| {
      NextSvgLeftmost(s, from + 1);
    }
  }

  /** The matches `matchAll` yields from `from` on: each search resumes at the previous end. */
  function SvgMatches(s: string, from: nat): (ms: seq<SvgMatch>)
    requires from <= |s|
    ensures forall m :: m in ms ==> from <= m.start && Fits(s, m)
    decreases |s| - from
  {
    match NextSvg(s, from)
    case None => []
    case Some(m) => [m] + SvgMatches(s, m.close + 6)
  }

  /** Every match is a successful attempt at its own start. */
  lemma {:induction false} SvgMatchesGenuine(s: string, from: nat)
    requires from <= |s|
    ensures forall m :: m in SvgMatches(s, from) ==> SvgAt(s, m.start) == Some(m)
    decreases |s| - from
  {
    NextSvgLeftmost(s, from);
    match NextSvg(s, from)
    case None =>
    case Some(m) =>
      SvgMatchesGenuine(s, m.close + 6);
  }

  /** Each match ends before the next one starts. */
  predicate InOrder(ms: seq<SvgMatch>) {
    forall i, j :: 0 <= i < j < |ms| ==> ms[i].close + 6 <= ms[j].start
  }

  /** The matches do not overlap and come in document order. */
  lemma {:induction false} SvgMatchesInOrder(s: string, from: nat)
    requires from <= |s|
    ensures InOrder(SvgMatches(s, from))
    decreases |s| - from
  {
    match NextSvg(s, from)
    case None =>
    case Some(m) =>
      var rest := SvgMatches(s, m.close + 6);
      SvgMatchesInOrder(s, m.close + 6);
      var ms := [m] + rest;
      forall i, j | 0 <= i < j < |ms| ensures ms[i].close + 6 <= ms[j].start {
        assert ms[j] == rest[j - 1] && rest[j - 1] in rest;
        if i > 0 {
          assert ms[i] == rest[i - 1];
          assert rest[i - 1].close + 6 <= rest[j - 1].start;
        } else {
          assert ms[i] == m;
        }
      }
      assert SvgMatches(s, from) == ms;
  }

  // ---------------------------------------------------------------------------
  // The two groups of each match
  // ---------------------------------------------------------------------------

  /** `match[1]`, the attribute text, and `match[2]`, the inner content. */
  datatype Fragment = Fragment(attrText: string, inner: string)

  function FragmentOf(s: string, m: SvgMatch): (f: Fragment)
    requires Fits(s, m)
  {
    Fragment(s[m.start + 4..m.gt], s[m.gt + 1..m.close])
  }

  function FragmentsOf(s: string, ms: seq<SvgMatch>): (fs: seq<Fragment>)
    requires forall m :: m in ms ==> Fits(s, m)
    ensures |fs| == |ms|
  {
    if ms == [] then [] else [FragmentOf(s, ms[0])] + FragmentsOf(s, ms[1..])
  }

  lemma {:induction false} FragmentsOfAt(s: string, ms: seq<SvgMatch>)
    requires forall m :: m in ms ==> Fits(s, m)
    ensures forall k :: 0 <= k < |ms| ==> FragmentsOf(s, ms)[k] == FragmentOf(s, ms[k])
  {
    if ms != [] {
      assert forall m :: m in ms[1..] ==> m in ms;
      FragmentsOfAt(s, ms[1..]);
      forall k | 1 <= k < |ms| ensures FragmentsOf(s, ms)[k] == FragmentOf(s, ms[k]) {
        assert ms[k] == ms[1..][k - 1];
      }
    }
  }

  /** `[...svgStr.matchAll(svgRegex)]`, each match as its two groups. */
  function Fragments(s: string): (fs: seq<Fragment>)
    ensures |fs| == |SvgMatches(s, 0)|
    ensures forall k :: 0 <= k < |fs| ==> fs[k] == FragmentOf(s, SvgMatches(s, 0)[k])
  {
    FragmentsOfAt(s, SvgMatches(s, 0));
    FragmentsOf(s, SvgMatches(s, 0))
  }

  /**
   * What the regex lets through: no `>` in the attribute text (`indexOf('>')` finds none)
   * and no closing tag in the content.
   */
  predicate Clean(f: Fragment) {
    IndexOf(f.attrText, '>', 0).None? && CloseFrom(f.inner, 0).None?
  }

  /** The fragment of a successful attempt is clean. */
  lemma FragmentOfClean(s: string, m: SvgMatch)
    requires Fits(s, m) && SvgAt(s, m.start) == Some(m)
    ensures Clean(FragmentOf(s, m))
  {
    SvgAtShape(s, m.start);
    var f := FragmentOf(s, m);
    forall t | 0 <= t < |f.attrText| ensures f.attrText[t] != '>' {
      assert f.attrText[t] == s[m.start + 4 + t];
    }
    forall t | 0 <= t < |f.inner| ensures !CloseAt(f.inner, t) {
      CloseInSlice(s, m.gt + 1, m.close, t);
    }
    IndexOfFirst(f.attrText, '>', 0);
    CloseFromFirst(f.inner, 0);
  }

  /** A closing tag inside a slice is a closing tag of the whole text, and the other way round. */
  lemma CloseInSlice(s: string, lo: nat, hi: nat, t: nat)
    requires lo <= hi <= |s|
    ensures CloseAt(s[lo..hi], t) <==> t + 6 <= hi - lo && CloseAt(s, lo + t)
  {
  }

  /** Every fragment found is clean. */
  lemma FragmentsClean(s: string)
    ensures forall f :: f in Fragments(s) ==> Clean(f)
  {
    var ms := SvgMatches(s, 0);
    SvgMatchesGenuine(s, 0);
    FragmentsOfAt(s, ms);
    forall f | f in Fragments(s) ensures Clean(f) {
      var k :| 0 <= k < |ms| && Fragments(s)[k] == f;
      assert ms[k] in ms;
      FragmentOfClean(s, ms[k]);
    }
  }

  /** A text without `<svg` in any case has no blocks. */
  lemma NoOpenNoFragments(s: string)
    requires forall i :: !OpenAt(s, i)
    ensures Fragments(s) == []
  {
    NextSvgLeftmost(s, 0);
    assert SvgMatches(s, 0) == [];
  }

  // ---------------------------------------------------------------------------
  // Writing blocks and finding them again
  // ---------------------------------------------------------------------------

  /** Blocks written one after the other, each `<svg` + attribute text + `>` + content + `</svg>`. */
  function Blocks(fs: seq<Fragment>): (text: string) {
    if fs == [] then ""
    else "<svg" + (fs[0].attrText + (">" + (fs[0].inner + ("</svg>" + Blocks(fs[1..])))))
  }

  /** Where the parts of a block written at `p` lie. */
  function BlockMatch(p: nat, f: Fragment): (m: SvgMatch) {
    SvgMatch(p, p + 4 + |f.attrText|, p + 4 + |f.attrText| + 1 + |f.inner|)
  }

  /** The attempt at `m.start` reads `m`, and its two groups are `f`. */
  predicate BlockShape(s: string, m: SvgMatch, f: Fragment) {
    m.start <= |s| && SvgAt(s, m.start) == Some(m) && FragmentOf(s, m) == f
  }

  /** Where the parts of the first block written at `p` lie. */
  lemma BlockParts(s: string, p: nat, fs: seq<Fragment>)
    requires fs != [] && p <= |s| && s[p..] == Blocks(fs)
    ensures var m := BlockMatch(p, fs[0]);
      && m.close + 6 <= |s|
      && s[p..p + 4] == "<svg" && s[p + 4..m.gt] == fs[0].attrText && s[m.gt] == '>'
      && s[m.gt + 1..m.close] == fs[0].inner && s[m.close..m.close + 6] == "</svg>"
      && s[m.close + 6..] == Blocks(fs[1..])
  {
    var a, i, rest := fs[0].attrText, fs[0].inner, Blocks(fs[1..]);
    BlockFront(s, p, a, i + ("</svg>" + rest));
    BlockBack(s, p + 4 + |a| + 1, i, rest);
  }

  /** `<svg`, the attribute text `a` and `>` written at `p`, followed by `y`. */
  lemma BlockFront(s: string, p: nat, a: string, y: string)
    requires p <= |s| && s[p..] == "<svg" + (a + (">" + y))
    ensures p + 4 + |a| + 1 <= |s|
    ensures s[p..p + 4] == "<svg" && s[p + 4..p + 4 + |a|] == a && s[p + 4 + |a|] == '>'
    ensures s[p + 4 + |a| + 1..] == y
  {
    SliceConcat(s, p, "<svg", a + (">" + y));
    SliceConcat(s, p + 4, a, ">" + y);
    SliceConcat(s, p + 4 + |a|, ">", y);
    assert s[p + 4 + |a|] == s[p + 4 + |a|..p + 4 + |a| + 1][0];
  }

  /** The content `i` and `</svg>` written at `q`, followed by `rest`. */
  lemma BlockBack(s: string, q: nat, i: string, rest: string)
    requires q <= |s| && s[q..] == i + ("</svg>" + rest)
    ensures q + |i| + 6 <= |s|
    ensures s[q..q + |i|] == i && s[q + |i|..q + |i| + 6] == "</svg>" && s[q + |i| + 6..] == rest
  {
    SliceConcat(s, q, i, "</svg>" + rest);
    SliceConcat(s, q + |i|, "</svg>", rest);
  }

  /** A clean block laid out at `m` is read by the attempt at its start. */
  lemma BlockPiece(s: string, m: SvgMatch, f: Fragment)
    requires Clean(f) && m.start + 4 <= m.gt < m.close && m.close + 6 <= |s|
    requires s[m.start..m.start + 4] == "<svg" && s[m.start + 4..m.gt] == f.attrText
    requires s[m.gt] == '>' && s[m.gt + 1..m.close] == f.inner
    requires s[m.close..m.close + 6] == "</svg>"
    ensures BlockShape(s, m, f)
  {
    OpenOf(s, m.start);
    CloseOf(s, m.close);
    NoGtIn(s, m.start + 4, m.gt, f);
    NoCloseIn(s, m.gt + 1, m.close, f);
    IndexOfAt(s, '>', m.start + 4, m.gt);
    CloseFromAt(s, m.gt + 1, m.close);
  }

  /** The first block written at `p`, if clean, is read by the attempt there. */
  lemma FirstBlock(s: string, p: nat, fs: seq<Fragment>)
    requires fs != [] && Clean(fs[0]) && p <= |s| && s[p..] == Blocks(fs)
    ensures BlockMatch(p, fs[0]).close + 6 <= |s|
    ensures BlockShape(s, BlockMatch(p, fs[0]), fs[0])
    ensures s[BlockMatch(p, fs[0]).close + 6..] == Blocks(fs[1..])
  {
    BlockParts(s, p, fs);
    BlockPiece(s, BlockMatch(p, fs[0]), fs[0]);
  }

  lemma OpenOf(s: string, p: nat)
    requires p + 4 <= |s| && s[p..p + 4] == "<svg"
    ensures OpenAt(s, p)
  {
    var w := s[p..p + 4];
    assert s[p] == w[0] && s[p + 1] == w[1] && s[p + 2] == w[2] && s[p + 3] == w[3];
  }

  lemma CloseOf(s: string, c: nat)
    requires c + 6 <= |s| && s[c..c + 6] == "</svg>"
    ensures CloseAt(s, c)
  {
    var w := s[c..c + 6];
    assert s[c] == w[0] && s[c + 1] == w[1] && s[c + 2] == w[2];
    assert s[c + 3] == w[3] && s[c + 4] == w[4] && s[c + 5] == w[5];
  }

  /** A slice without `>` has no `>` at any of its positions. */
  lemma NoGtIn(s: string, lo: nat, hi: nat, f: Fragment)
    requires lo <= hi <= |s| && s[lo..hi] == f.attrText && Clean(f)
    ensures forall t :: lo <= t < hi ==> NotAt(s, t, '>')
  {
    IndexOfFirst(f.attrText, '>', 0);
    forall t | lo <= t < hi ensures NotAt(s, t, '>') {
      assert s[t] == f.attrText[t - lo];
    }
  }

  /**
   * No closing tag starts inside content without one that is followed by `<`: one inside
   * would be one of the content's, and one reaching past its end would have `<` inside it.
   */
  lemma NoCloseIn(s: string, lo: nat, hi: nat, f: Fragment)
    requires lo <= hi < |s| && s[lo..hi] == f.inner && s[hi] == '<' && Clean(f)
    ensures forall t :: lo <= t < hi ==> !CloseAt(s, t)
  {
    CloseFromFirst(f.inner, 0);
    forall t | lo <= t < hi ensures !CloseAt(s, t) {
      CloseInSlice(s, lo, hi, t - lo);
      if t + 6 > hi {
        assert 1 <= hi - t <= 5;
      }
    }
  }

  /** The matches of blocks written from `p` on. */
  function BlockMatches(p: nat, fs: seq<Fragment>): (ms: seq<SvgMatch>)
    decreases |fs|
  {
    if fs == [] then [] else [BlockMatch(p, fs[0])] + BlockMatches(BlockMatch(p, fs[0]).close + 6, fs[1..])
  }

  lemma BlockMatchesFirst(p: nat, fs: seq<Fragment>)
    requires fs != []
    ensures BlockMatches(p, fs) ==
      [BlockMatch(p, fs[0])] + BlockMatches(BlockMatch(p, fs[0]).close + 6, fs[1..])
  {
  }

  /** Clean blocks lie one after the other from `p` to the end of `s`. */
  predicate BlocksAt(s: string, p: nat, fs: seq<Fragment>)
    decreases |fs|
  {
    if fs == [] then p == |s|
    else BlockShape(s, BlockMatch(p, fs[0]), fs[0]) && BlocksAt(s, BlockMatch(p, fs[0]).close + 6, fs[1..])
  }

  lemma {:induction false} BlocksLaidOut(s: string, p: nat, fs: seq<Fragment>)
    requires p <= |s| && s[p..] == Blocks(fs)
    requires forall f :: f in fs ==> Clean(f)
    ensures BlocksAt(s, p, fs)
    decreases |fs|
  {
    if fs == [] {
      assert |s[p..]| == 0;
    } else {
      assert forall f :: f in fs[1..] ==> f in fs;
      AfterBlock(s, p, fs);
      BlocksLaidOut(s, BlockMatch(p, fs[0]).close + 6, fs[1..]);
      BlocksAtCons(s, p, fs);
    }
  }

  /** What follows the first block written at `p` is the other blocks. */
  lemma AfterBlock(s: string, p: nat, fs: seq<Fragment>)
    requires fs != [] && p <= |s| && s[p..] == Blocks(fs)
    ensures BlockMatch(p, fs[0]).close + 6 <= |s|
    ensures s[BlockMatch(p, fs[0]).close + 6..] == Blocks(fs[1..])
  {
    BlockParts(s, p, fs);
  }

  /** A clean first block in front of laid-out blocks makes them all laid out. */
  lemma BlocksAtCons(s: string, p: nat, fs: seq<Fragment>)
    requires fs != [] && p <= |s| && s[p..] == Blocks(fs)
    requires forall f :: f in fs ==> Clean(f)
    requires BlocksAt(s, BlockMatch(p, fs[0]).close + 6, fs[1..])
    ensures BlocksAt(s, p, fs)
  {
    assert fs[0] in fs;
    FirstBlock(s, p, fs);
  }

  /** A successful attempt at `p` is the first match from `p` on, and the search resumes after it. */
  lemma SvgMatchesFirst(s: string, p: nat, m: SvgMatch)
    requires p <= |s| && SvgAt(s, p) == Some(m)
    ensures SvgMatches(s, p) == [m] + SvgMatches(s, m.close + 6)
  {
    assert NextSvg(s, p) == Some(m);
  }

  /** Over laid-out blocks, `matchAll` yields exactly the blocks' matches. */
  lemma {:induction false} SvgMatchesOfBlocks(s: string, p: nat, fs: seq<Fragment>)
    requires p <= |s| && BlocksAt(s, p, fs)
    ensures SvgMatches(s, p) == BlockMatches(p, fs)
    decreases |fs|
  {
    if fs == [] {
      assert SvgAt(s, p) == None;
      assert NextSvg(s, p) == None;
    } else {
      SvgMatchesOfBlocks(s, BlockMatch(p, fs[0]).close + 6, fs[1..]);
      SvgMatchesCons(s, p, fs);
    }
  }

  /** A first block found at `p`, in front of blocks whose matches are known, is matched first. */
  lemma SvgMatchesCons(s: string, p: nat, fs: seq<Fragment>)
    requires fs != [] && p <= |s| && SvgAt(s, p) == Some(BlockMatch(p, fs[0]))
    requires SvgMatches(s, BlockMatch(p, fs[0]).close + 6) == BlockMatches(BlockMatch(p, fs[0]).close + 6, fs[1..])
    ensures SvgMatches(s, p) == BlockMatches(p, fs)
  {
    var m := BlockMatch(p, fs[0]);
    calc {
      SvgMatches(s, p);
      { SvgMatchesFirst(s, p, m); }
      [m] + SvgMatches(s, m.close + 6);
      [m] + BlockMatches(m.close + 6, fs[1..]);
      { BlockMatchesFirst(p, fs); }
      BlockMatches(p, fs);
    }
  }

  /** Over laid-out blocks, the groups of the blocks' matches are the blocks' own parts. */
  lemma {:induction false} FragmentsOfBlocks(s: string, p: nat, fs: seq<Fragment>)
    requires BlocksAt(s, p, fs)
    ensures forall m :: m in BlockMatches(p, fs) ==> Fits(s, m)
    ensures FragmentsOf(s, BlockMatches(p, fs)) == fs
    decreases |fs|
  {
    if fs != [] {
      FragmentsOfBlocks(s, BlockMatch(p, fs[0]).close + 6, fs[1..]);
      FragmentsCons(s, p, fs);
    }
  }

  /** A clean first block in front of blocks whose groups are known adds its own groups in front. */
  lemma FragmentsCons(s: string, p: nat, fs: seq<Fragment>)
    requires fs != [] && BlockShape(s, BlockMatch(p, fs[0]), fs[0])
    requires forall r :: r in BlockMatches(BlockMatch(p, fs[0]).close + 6, fs[1..]) ==> Fits(s, r)
    requires FragmentsOf(s, BlockMatches(BlockMatch(p, fs[0]).close + 6, fs[1..])) == fs[1..]
    ensures forall m :: m in BlockMatches(p, fs) ==> Fits(s, m)
    ensures FragmentsOf(s, BlockMatches(p, fs)) == fs
  {
    BlockMatchesFirst(p, fs);
    FragmentsStep(s, BlockMatch(p, fs[0]), BlockMatches(BlockMatch(p, fs[0]).close + 6, fs[1..]), fs);
  }

  lemma FragmentsStep(s: string, m: SvgMatch, rest: seq<SvgMatch>, fs: seq<Fragment>)
    requires fs != [] && Fits(s, m) && FragmentOf(s, m) == fs[0]
    requires forall r :: r in rest ==> Fits(s, r)
    requires FragmentsOf(s, rest) == fs[1..]
    ensures forall r :: r in [m] + rest ==> Fits(s, r)
    ensures FragmentsOf(s, [m] + rest) == fs
  {
    assert ([m] + rest)[1..] == rest;
    SameFront(FragmentsOf(s, [m] + rest), fs, fs[0], FragmentsOf(s, rest), fs[1..]);
  }

  /** Clean blocks written one after the other are found again, each as it was written. */
  lemma FragmentsOfWrittenBlocks(fs: seq<Fragment>)
    requires forall f :: f in fs ==> Clean(f)
    ensures Fragments(Blocks(fs)) == fs
  {
    var s := Blocks(fs);
    assert s[0..] == s;
    BlocksLaidOut(s, 0, fs);
    SvgMatchesOfBlocks(s, 0, fs);
    FragmentsOfBlocks(s, 0, fs);
  }
}
