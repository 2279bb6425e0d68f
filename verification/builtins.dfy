/**
 * The JavaScript built-ins that the fragment combiner of index.js leans on, modelled as
 * functions: the regular-expression class `\s`, `String.prototype.split(/\s+/)`,
 * `Array.prototype.join`, the first-seen order of a `Set`, `parseFloat` and the text
 * of a number in a template literal.
 */
module Builtins {

  datatype Option<T> = None | Some(value: T)

  /** The characters `\s` matches in an ECMAScript regular expression. */
  const Whitespace: set<char> := {
    '\t', '\n', '\U{000B}', '\U{000C}', '\r', ' ', '\U{00A0}', '\U{1680}',
    '\U{2000}', '\U{2001}', '\U{2002}', '\U{2003}', '\U{2004}', '\U{2005}',
    '\U{2006}', '\U{2007}', '\U{2008}', '\U{2009}', '\U{200A}',
    '\U{2028}', '\U{2029}', '\U{202F}', '\U{205F}', '\U{3000}', '\U{FEFF}'
  }

  predicate IsSpace(c: char) {
    c in Whitespace
  }

  predicate NoSpace(s: string) {
    forall t :: 0 <= t < |s| ==> !IsSpace(s[t])
  }

  /** The end of the run, starting at `i`, of characters whose `IsSpace` is `space`. */
  function Span(s: string, i: nat, space: bool): (j: nat)
    requires i <= |s|
    ensures i <= j <= |s|
    decreases |s| - i
  {
    if i < |s| && IsSpace(s[i]) == space then Span(s, i + 1, space) else i
  }

  /** Every character the run passes over has the kind asked for. */
  lemma {:induction false} SpanRun(s: string, i: nat, space: bool)
    requires i <= |s|
    ensures forall t :: i <= t < Span(s, i, space) ==> IsSpace(s[t]) == space
    ensures Span(s, i, space) < |s| ==> IsSpace(s[Span(s, i, space)]) != space
    decreases |s| - i
  {
    if i < |s| && IsSpace(s[i]) == space {
      SpanRun(s, i + 1, space);
    }
  }

  /** `s.indexOf(c, from)`: the first occurrence of `c` at or after `from`. */
  function IndexOf(s: string, c: char, from: nat): (r: Option<nat>)
    requires from <= |s|
    ensures r.Some? ==> from <= r.value < |s|
    decreases |s| - from
  {
    if from == |s| then None
    else if s[from] == c then Some(from)
    else IndexOf(s, c, from + 1)
  }

  /** `indexOf` finds the first occurrence, and finds none only when there is none. */
  lemma {:induction false} IndexOfFirst(s: string, c: char, from: nat)
    requires from <= |s|
    ensures IndexOf(s, c, from).Some? ==> s[IndexOf(s, c, from).value] == c
    ensures IndexOf(s, c, from).Some? ==> forall t :: from <= t < IndexOf(s, c, from).value ==> s[t] != c
    ensures IndexOf(s, c, from).None? ==> forall t :: from <= t < |s| ==> s[t] != c
    decreases |s| - from
  {
    if from < |s| && s[from] != c {
      IndexOfFirst(s, c, from + 1);
    }
  }

  /** `indexOf` finds `c` at `p` when `p` holds the first `c` from `from` on. */
  lemma {:induction false} IndexOfAt(s: string, c: char, from: nat, p: nat)
    requires from <= p < |s| && s[p] == c
    requires forall t :: from <= t < p ==> NotAt(s, t, c)
    ensures IndexOf(s, c, from) == Some(p)
    decreases p - from
  {
    if from < p {
      assert NotAt(s, from, c);
      IndexOfAt(s, c, from + 1, p);
    }
  }

  /** The character at `t` is not whitespace. */
  predicate NotSpaceAt(s: string, t: nat) {
    t < |s| && !IsSpace(s[t])
  }

  /** The character at `t` is not `c`. */
  predicate NotAt(s: string, t: nat, c: char) {
    t < |s| && s[t] != c
  }

  // ---------------------------------------------------------------------------
  // Two facts about sequences
  // ---------------------------------------------------------------------------

  /** A text that reads `x` then `y` from `p` on holds `x` at `p` and `y` after it. */
  lemma SliceConcat(s: string, p: nat, x: string, y: string)
    requires p <= |s| && s[p..] == x + y
    ensures p + |x| <= |s| && s[p..p + |x|] == x && s[p + |x|..] == y
  {
    assert s[p..p + |x|] == s[p..][..|x|];
    assert s[p + |x|..] == s[p..][|x|..];
  }

  /** A sequence begins every sequence that extends it. */
  lemma PrefixOfAppend<T>(x: seq<T>, y: seq<T>)
    ensures x <= x + y
  {
  }

  /** What begins `x + y` inside `r` begins `r`. */
  lemma PrefixStep<T>(x: seq<T>, y: seq<T>, r: seq<T>)
    requires x + y <= r
    ensures x <= r
  {
  }

  /** Concatenation is associative. */
  lemma AppendAssoc<T>(x: seq<T>, y: seq<T>, z: seq<T>)
    ensures (x + y) + z == x + (y + z)
  {
  }

  /** Two sequences that start with the same element and go on alike are equal. */
  lemma SameFront<T>(a: seq<T>, b: seq<T>, x: T, a': seq<T>, b': seq<T>)
    requires a == [x] + a' && b == [x] + b' && a' == b'
    ensures a == b
  {
  }

  // ---------------------------------------------------------------------------
  // split(/\s+/) and join(' ')
  // ---------------------------------------------------------------------------

  /**
   * `s.split(/\s+/)`: the pieces between maximal runs of whitespace. A leading (trailing)
   * run gives an empty first (last) piece, and `""` gives `[""]`.
   */
  function Split(s: string): (parts: seq<string>)
    ensures |parts| >= 1
    decreases |s|
  {
    var i := Span(s, 0, false);
    if i == |s| then [s]
    else
      var j := Span(s, i, true);
      [s[..i]] + Split(s[j..])
  }

  /** No piece of a split holds whitespace. */
  lemma {:induction false} SplitNoSpace(s: string)
    ensures forall p :: p in Split(s) ==> NoSpace(p)
    decreases |s|
  {
    var i := Span(s, 0, false);
    SpanRun(s, 0, false);
    if i < |s| {
      var j := Span(s, i, true);
      SplitNoSpace(s[j..]);
      assert NoSpace(s[..i]);
      assert Split(s) == [s[..i]] + Split(s[j..]);
    }
  }

  /** `parts.join(sep)`. */
  function Join(parts: seq<string>, sep: string): (joined: string) {
    if parts == [] then ""
    else if |parts| == 1 then parts[0]
    else parts[0] + sep + Join(parts[1..], sep)
  }

  lemma {:induction false} JoinStart(parts: seq<string>, sep: string)
    requires |parts| >= 1 && parts[0] != ""
    ensures |Join(parts, sep)| >= |parts[0]| && Join(parts, sep)[..|parts[0]|] == parts[0]
  {
    if |parts| > 1 {
      assert Join(parts, sep) == parts[0] + (sep + Join(parts[1..], sep));
    }
  }

  /** Splitting undoes joining with one space, when no piece is empty or holds whitespace. */
  lemma {:induction false} SplitJoin(parts: seq<string>)
    requires |parts| >= 1
    requires forall p :: p in parts ==> p != "" && NoSpace(p)
    ensures Split(Join(parts, " ")) == parts
    decreases |parts|
  {
    var s := Join(parts, " ");
    if |parts| == 1 {
      assert s == parts[0] && NoSpace(s);
      SpanRun(s, 0, false);
    } else {
      var p, rest := parts[0], Join(parts[1..], " ");
      assert parts[0] in parts && parts[1] in parts;
      assert NoSpace(p) && NoSpace(parts[1]) && parts[1] != "";
      JoinStart(parts[1..], " ");
      assert s == p + " " + rest;
      assert rest[0] == parts[1][0];
      assert forall t :: 0 <= t < |p| ==> s[t] == p[t];
      assert s[|p|] == ' ';
      var i := Span(s, 0, false);
      SpanRun(s, 0, false);
      assert i == |p|;
      assert s[|p| + 1] == rest[0];
      var j := Span(s, i, true);
      SpanRun(s, i, true);
      assert j == |p| + 1;
      assert s[..i] == p;
      assert s[j..] == rest;
      assert forall q :: q in parts[1..] ==> q in parts;
      SplitJoin(parts[1..]);
      assert parts == [p] + parts[1..];
    }
  }

  // ---------------------------------------------------------------------------
  // The iteration order of a Set: first-seen order, without repeats
  // ---------------------------------------------------------------------------

  predicate NoDup<T(==)>(xs: seq<T>) {
    forall i, j :: 0 <= i < j < |xs| ==> xs[i] != xs[j]
  }

  /** `[...new Set(xs)]`: the elements of `xs` in the order they are first seen. */
  function Dedup(xs: seq<string>): (firstSeen: seq<string>)
    decreases |xs|
  {
    if xs == [] then []
    else
      var d := Dedup(xs[..|xs| - 1]);
      var x := xs[|xs| - 1];
      if x in d then d else d + [x]
  }

  /** A set holds exactly the elements it was built from. */
  lemma {:induction false} DedupMembers(xs: seq<string>)
    ensures forall x :: x in Dedup(xs) <==> x in xs
    decreases |xs|
  {
    if xs != [] {
      var init, x := xs[..|xs| - 1], xs[|xs| - 1];
      assert xs == init + [x];
      DedupMembers(init);
    }
  }

  /** A set holds each element once. */
  lemma {:induction false} DedupNoDup(xs: seq<string>)
    ensures NoDup(Dedup(xs))
    decreases |xs|
  {
    if xs != [] {
      var init := xs[..|xs| - 1];
      DedupNoDup(init);
      DedupMembers(init);
    }
  }

  /** The elements of `b` that do not occur in `a`, in order. */
  function Without(b: seq<string>, a: seq<string>): (kept: seq<string>)
    decreases |b|
  {
    if b == [] then []
    else
      var x := b[|b| - 1];
      Without(b[..|b| - 1], a) + (if x in a then [] else [x])
  }

  /** Removing nothing leaves a sequence as it is. */
  lemma {:induction false} WithoutNothing(b: seq<string>)
    ensures Without(b, []) == b
    decreases |b|
  {
    if b != [] {
      WithoutNothing(b[..|b| - 1]);
      assert b[..|b| - 1] + [b[|b| - 1]] == b;
    }
  }

  lemma {:induction false} WithoutMembers(b: seq<string>, a: seq<string>)
    ensures forall x :: x in Without(b, a) <==> x in b && x !in a
    decreases |b|
  {
    if b != [] {
      assert b == b[..|b| - 1] + [b[|b| - 1]];
      WithoutMembers(b[..|b| - 1], a);
    }
  }

  lemma DedupSnoc(xs: seq<string>, x: string)
    ensures Dedup(xs + [x]) == if x in Dedup(xs) then Dedup(xs) else Dedup(xs) + [x]
  {
    assert (xs + [x])[..|xs + [x]| - 1] == xs;
  }

  lemma WithoutSnoc(b: seq<string>, x: string, a: seq<string>)
    ensures Without(b + [x], a) == Without(b, a) + (if x in a then [] else [x])
  {
    assert (b + [x])[..|b + [x]| - 1] == b;
  }

  /**
   * Adding the elements of `b` to a set built from `a` keeps `a`'s distinct elements first,
   * followed by the new elements of `b` in their first-seen order.
   */
  lemma {:induction false} DedupAppend(a: seq<string>, b: seq<string>)
    ensures Dedup(a + b) == Dedup(a) + Dedup(Without(b, a))
    decreases |b|
  {
    if b == [] {
      assert a + b == a;
    } else {
      var b', x := b[..|b| - 1], b[|b| - 1];
      assert b == b' + [x];
      DedupAppend(a, b');
      DedupAppendStep(a, b', x);
    }
  }

  lemma DedupAppendStep(a: seq<string>, b: seq<string>, x: string)
    requires Dedup(a + b) == Dedup(a) + Dedup(Without(b, a))
    ensures Dedup(a + (b + [x])) == Dedup(a) + Dedup(Without(b + [x], a))
  {
    assert a + (b + [x]) == (a + b) + [x];
    WithoutSnoc(b, x, a);
    DedupMembers(a + b);
    if x in a + b {
      DedupSnoc(a + b, x);
      assert Dedup(a + (b + [x])) == Dedup(a + b);
      if x !in a {
        assert x in b;
        assert Without(b + [x], a) == Without(b, a) + [x];
        SeenBefore(b, x, a);
      } else {
        assert Without(b + [x], a) == Without(b, a) + [];
        assert Without(b, a) + [] == Without(b, a);
      }
    } else {
      Unseen(a, b, x);
    }
  }

  /** A sequence without repeats is its own set. */
  lemma {:induction false} DedupOfNoDup(xs: seq<string>)
    requires NoDup(xs)
    ensures Dedup(xs) == xs
    decreases |xs|
  {
    if xs != [] {
      var init, x := xs[..|xs| - 1], xs[|xs| - 1];
      assert NoDup(init);
      DedupOfNoDup(init);
      assert x !in init;
      assert init + [x] == xs;
    }
  }

  /** Removing elements keeps a sequence free of repeats. */
  lemma {:induction false} WithoutNoDup(b: seq<string>, a: seq<string>)
    requires NoDup(b)
    ensures NoDup(Without(b, a))
    decreases |b|
  {
    if b != [] {
      var init, x := b[..|b| - 1], b[|b| - 1];
      assert NoDup(init);
      WithoutNoDup(init, a);
      WithoutMembers(init, a);
      assert x !in init;
    }
  }

  /** Removal works piece by piece. */
  lemma {:induction false} WithoutAppend(x: seq<string>, y: seq<string>, a: seq<string>)
    ensures Without(x + y, a) == Without(x, a) + Without(y, a)
    decreases |y|
  {
    if y == [] {
      assert x + y == x;
    } else {
      var y', z := y[..|y| - 1], y[|y| - 1];
      assert y == y' + [z];
      assert x + y == (x + y') + [z];
      WithoutAppend(x, y', a);
      WithoutSnoc(x + y', z, a);
      WithoutSnoc(y', z, a);
    }
  }

  /** What is removed depends only on which elements `a` holds. */
  lemma {:induction false} WithoutSame(b: seq<string>, a1: seq<string>, a2: seq<string>)
    requires forall x :: x in b ==> (x in a1 <==> x in a2)
    ensures Without(b, a1) == Without(b, a2)
    decreases |b|
  {
    if b != [] {
      var init := b[..|b| - 1];
      assert forall x :: x in init ==> x in b;
      WithoutSame(init, a1, a2);
      assert b[|b| - 1] in b;
    }
  }

  /** Removing `a` and then `c` is removing `a + c`. */
  lemma {:induction false} WithoutTwice(b: seq<string>, a: seq<string>, c: seq<string>)
    ensures Without(Without(b, a), c) == Without(b, a + c)
    decreases |b|
  {
    if b != [] {
      var init, x := b[..|b| - 1], b[|b| - 1];
      WithoutTwice(init, a, c);
      var kept := if x in a then [] else [x];
      WithoutAppend(Without(init, a), kept, c);
      if x !in a {
        WithoutSnoc([], x, c);
        assert [] + [x] == kept;
      }
    }
  }

  lemma SeenBefore(b: seq<string>, x: string, a: seq<string>)
    requires x in b && x !in a
    ensures Dedup(Without(b, a) + [x]) == Dedup(Without(b, a))
  {
    var w := Without(b, a);
    WithoutMembers(b, a);
    DedupMembers(w);
    DedupSnoc(w, x);
  }

  lemma Unseen(a: seq<string>, b: seq<string>, x: string)
    requires x !in a + b
    requires Dedup(a + b) == Dedup(a) + Dedup(Without(b, a))
    ensures Dedup((a + b) + [x]) == Dedup(a) + Dedup(Without(b, a) + [x])
  {
    var d, w := Dedup(a + b), Without(b, a);
    assert Dedup((a + b) + [x]) == d + [x] by {
      DedupMembers(a + b);
      DedupSnoc(a + b, x);
    }
    assert Dedup(w + [x]) == Dedup(w) + [x] by {
      WithoutMembers(b, a);
      DedupMembers(w);
      DedupSnoc(w, x);
    }
    AppendAssoc(Dedup(a), Dedup(w), [x]);
  }

  // ---------------------------------------------------------------------------
  // Numbers: parseFloat and the text of a number
  // ---------------------------------------------------------------------------

  /** A JavaScript number as this model needs it: a non-negative integer, or NaN. */
  datatype Num = Finite(n: nat) | NaN

  /** `a + b`: NaN absorbs everything. */
  function Add(a: Num, b: Num): (sum: Num)
    ensures sum.NaN? <==> a.NaN? || b.NaN?
    ensures sum.Finite? ==> sum.n == a.n + b.n
  {
    if a.Finite? && b.Finite? then Finite(a.n + b.n) else NaN
  }

  /** Addition has 0 as its unit, and neither the order nor the grouping of a sum matters. */
  lemma AddLaws(a: Num, b: Num, c: Num)
    ensures Add(a, Finite(0)) == a && Add(Finite(0), a) == a
    ensures Add(a, b) == Add(b, a)
    ensures Add(Add(a, b), c) == Add(a, Add(b, c))
  {
  }

  predicate IsDigit(c: char) {
    '0' as int <= c as int <= '9' as int
  }

  /** The end of the run of decimal digits starting at `i`. */
  function DigitRun(s: string, i: nat): (j: nat)
    requires i <= |s|
    ensures i <= j <= |s|
    ensures forall t :: i <= t < j ==> IsDigit(s[t])
    ensures j < |s| ==> !IsDigit(s[j])
    decreases |s| - i
  {
    if i < |s| && IsDigit(s[i]) then DigitRun(s, i + 1) else i
  }

  function DigitsValue(ds: string): (value: nat)
    requires forall t :: 0 <= t < |ds| ==> IsDigit(ds[t])
    decreases |ds|
  {
    if ds == [] then 0
    else
      var c := ds[|ds| - 1];
      assert IsDigit(c);
      DigitsValue(ds[..|ds| - 1]) * 10 + (c as int - '0' as int)
  }

  /** A decimal digit follows the leading whitespace of `s`. */
  predicate LeadingDigit(s: string) {
    Span(s, 0, true) < |s| && IsDigit(s[Span(s, 0, true)])
  }

  /**
   * `parseFloat(s)`: leading whitespace is skipped and the leading run of decimal digits is
   * read; with no digit there the result is NaN.
   */
  function ParseFloat(s: string): (r: Num)
    ensures r.Finite? <==> LeadingDigit(s)
  {
    var i := Span(s, 0, true);
    var j := DigitRun(s, i);
    if j == i then NaN else Finite(DigitsValue(s[i..j]))
  }

  function DigitChar(d: nat): (c: char)
    requires d < 10
    ensures IsDigit(c) && c as int - '0' as int == d
  {
    ('0' as int + d) as char
  }

  /** The decimal text of `n`, as a template literal renders an integer-valued number. */
  function NatText(n: nat): (s: string)
    ensures |s| >= 1
    ensures forall t :: 0 <= t < |s| ==> IsDigit(s[t])
    ensures |s| > 1 ==> s[0] != '0'
  {
    if n < 10 then [DigitChar(n)] else NatText(n / 10) + [DigitChar(n % 10)]
  }

  function NumText(x: Num): (text: string) {
    match x
    case Finite(n) => NatText(n)
    case NaN => "NaN"
  }

  lemma {:induction false} NatTextValue(n: nat)
    ensures DigitsValue(NatText(n)) == n
  {
    if n >= 10 {
      NatTextValue(n / 10);
      var s := NatText(n);
      assert s[..|s| - 1] == NatText(n / 10);
    }
  }

  /**
   * `parseFloat` of a text that starts with the written text of `x`, followed by a character
   * that is not a digit, reads back `x`.
   */
  lemma NumTextReadsBack(u: string, x: Num)
    requires |NumText(x)| < |u| && u[..|NumText(x)|] == NumText(x) && !IsDigit(u[|NumText(x)|])
    ensures ParseFloat(u) == x
  {
    var w := NumText(x);
    assert u[0] == w[0];
    assert !IsSpace(u[0]);
    assert Span(u, 0, true) == 0;
    if x.Finite? {
      assert forall t :: 0 <= t < |w| ==> IsDigit(u[t]);
      assert DigitRun(u, 0) == |w|;
      assert u[0..|w|] == w;
      NatTextValue(x.n);
    }
  }

  /** Reading back the rendered text of a number gives the number. */
  lemma NumTextRoundTrip(n: nat)
    ensures ParseFloat(NatText(n)) == Finite(n)
  {
    var s := NatText(n);
    assert !IsSpace(s[0]);
    assert Span(s, 0, true) == 0;
    assert DigitRun(s, 0) == |s|;
    assert s[0..|s|] == s;
    NatTextValue(n);
  }
}
