/**
 * `parseAttributes` (index.js:6-20): repeated `exec` of the global regular expression
 * `/(\S+)\s*=\s*"([^"]*)"/g` over a tag's attribute text, storing each name/value pair.
 *
 * The regular expression is library code and is modelled by functions that fix its
 * backtracking outcome: a match starts at the leftmost index where one exists, the
 * greedy `(\S+)` takes the longest name for which the rest of the pattern still matches,
 * and `\s*`, `[^"]*` leave no choice. The loop that stores the pairs is a method.
 */
module AttrParse {
  import opened Builtins
  import opened AttrMaps

  /** Where `\s*=\s*"([^"]*)"` matches when tried at an index: the bounds of the value. */
  datatype Tail = Tail(valueStart: nat, valueEnd: nat)

  /** `\s*=\s*"([^"]*)"` tried at index `j`; the closing quote is at `valueEnd`. */
  function TailAt(s: string, j: nat): (r: Option<Tail>)
    requires j <= |s|
    ensures r.Some? ==> j + 2 <= r.value.valueStart <= r.value.valueEnd < |s|
  {
    var e := Span(s, j, true);
    if e < |s| && s[e] == '=' then
      var q := Span(s, e + 1, true);
      if q < |s| && s[q] == '"' then
        match IndexOf(s, '"', q + 1)
        case Some(c) => Some(Tail(q + 1, c))
        case None => None
      else None
    else None
  }

  /** The value lies between two double quotes and `[^"]*` holds none. */
  lemma TailValue(s: string, j: nat)
    requires j <= |s| && TailAt(s, j).Some?
    ensures s[TailAt(s, j).value.valueStart - 1] == '"' && s[TailAt(s, j).value.valueEnd] == '"'
    ensures forall t :: TailAt(s, j).value.valueStart <= t < TailAt(s, j).value.valueEnd ==> s[t] != '"'
  {
    var e := Span(s, j, true);
    var q := Span(s, e + 1, true);
    IndexOfFirst(s, '"', q + 1);
  }

  /** The whole pattern matches at `i` with a name that ends at `j`. */
  predicate MatchesAt(s: string, i: nat, j: nat) {
    i < j <= |s| && (forall t :: i <= t < j ==> !IsSpace(s[t])) && TailAt(s, j).Some?
  }

  /** One result of `exec`: the name is `s[nameStart..nameEnd]`, the value `s[valueStart..valueEnd]`. */
  datatype AttrMatch = AttrMatch(nameStart: nat, nameEnd: nat, valueStart: nat, valueEnd: nat)

  /** Backtracking of the greedy `(\S+)`: the longest name end in `(i, j]` whose tail matches. */
  function LongestName(s: string, i: nat, j: nat): (r: Option<nat>)
    requires i < j <= |s|
    ensures r.Some? ==> i < r.value <= j
    decreases j
  {
    if TailAt(s, j).Some? then Some(j)
    else if j == i + 1 then None
    else LongestName(s, i, j - 1)
  }

  /** The tail matches after the name picked, after no longer one up to `j`, and `None` means after none. */
  lemma {:induction false} LongestNameIsLongest(s: string, i: nat, j: nat)
    requires i < j <= |s|
    ensures LongestName(s, i, j).Some? ==> TailAt(s, LongestName(s, i, j).value).Some?
    ensures LongestName(s, i, j).Some? ==> forall t :: LongestName(s, i, j).value < t <= j ==> TailAt(s, t).None?
    ensures LongestName(s, i, j).None? ==> forall t :: i < t <= j ==> TailAt(s, t).None?
    decreases j
  {
    if TailAt(s, j).None? && j > i + 1 {
      LongestNameIsLongest(s, i, j - 1);
    }
  }

  /** The bounds of a match lie inside `s`, in the order the pattern puts them. */
  predicate Within(s: string, r: AttrMatch) {
    r.nameStart < r.nameEnd && r.nameEnd + 2 <= r.valueStart <= r.valueEnd < |s|
  }

  /** The pattern tried at index `i` alone. */
  function MatchAt(s: string, i: nat): (r: Option<AttrMatch>)
    requires i <= |s|
    ensures r.Some? ==> r.value.nameStart == i && Within(s, r.value)
  {
    if i < |s| && !IsSpace(s[i]) then
      var e := Span(s, i, false);
      match LongestName(s, i, e)
      case Some(j) =>
        var tail := TailAt(s, j);
        if tail.Some? then Some(AttrMatch(i, j, tail.value.valueStart, tail.value.valueEnd)) else None
      case None => None
    else None
  }

  /** At a given start, `MatchAt` finds the longest name with which the pattern matches, if any. */
  lemma MatchAtLongest(s: string, i: nat)
    requires i <= |s|
    ensures MatchAt(s, i).Some? ==>
      TailAt(s, MatchAt(s, i).value.nameEnd) == Some(Tail(MatchAt(s, i).value.valueStart, MatchAt(s, i).value.valueEnd))
    ensures MatchAt(s, i).Some? ==> MatchesAt(s, i, MatchAt(s, i).value.nameEnd)
    ensures MatchAt(s, i).Some? ==> forall j :: MatchAt(s, i).value.nameEnd < j ==> !MatchesAt(s, i, j)
    ensures MatchAt(s, i).None? ==> forall j :: !MatchesAt(s, i, j)
  {
    if i < |s| && !IsSpace(s[i]) {
      var e := Span(s, i, false);
      SpanRun(s, i, false);
      LongestNameIsLongest(s, i, e);
    }
  }

  /**
   * `attrRegex.exec(s)` with `lastIndex == from`: the match at the leftmost index where
   * the pattern matches at all, with the longest name there.
   */
  function Exec(s: string, from: nat): (r: Option<AttrMatch>)
    requires from <= |s|
    ensures r.Some? ==> from <= r.value.nameStart && Within(s, r.value)
    decreases |s| - from
  {
    if from == |s| then None
    else match MatchAt(s, from)
      case Some(m) => Some(m)
      case None => Exec(s, from + 1)
  }

  /** No match starts between `from` and the start of the one `Exec` returns. */
  lemma {:induction false} ExecLeftmost(s: string, from: nat)
    requires from <= |s|
    ensures Exec(s, from).Some? ==> MatchAt(s, Exec(s, from).value.nameStart) == Exec(s, from)
    ensures Exec(s, from).Some? ==> MatchesAt(s, Exec(s, from).value.nameStart, Exec(s, from).value.nameEnd)
    ensures Exec(s, from).Some? ==> forall i, j :: from <= i < Exec(s, from).value.nameStart ==> !MatchesAt(s, i, j)
    ensures Exec(s, from).None? ==> forall i, j :: from <= i ==> !MatchesAt(s, i, j)
    decreases |s| - from
  {
    if from < |s| {
      MatchAtLongest(s, from);
      if MatchAt(s, from).None? {
        ExecLeftmost(s, from + 1);
        var r := Exec(s, from + 1);
        assert Exec(s, from) == r;
        forall i, j | from <= i && (r.Some? ==> i < r.value.nameStart)
          ensures !MatchesAt(s, i, j)
        {
          if i == from {
            assert !MatchesAt(s, from, j);
          }
        }
      }
    }
  }


  /** A name is not empty and holds no whitespace; a value holds no double quote. */
  predicate WellFormed(p: (string, string)) {
    p.0 != "" && NoSpace(p.0) && '"' !in p.1
  }

  /** The successive results of `exec` from `lastIndex == from` on. */
  function Matches(s: string, from: nat): (ms: seq<AttrMatch>)
    requires from <= |s|
    ensures forall r :: r in ms ==> Within(s, r)
    decreases |s| - from
  {
    match Exec(s, from)
    case None => []
    case Some(r) => [r] + Matches(s, r.valueEnd + 1)
  }

  /** Each result `exec` returns is the match of the pattern tried at its own start. */
  lemma {:induction false} MatchesGenuine(s: string, from: nat)
    requires from <= |s|
    ensures forall r :: r in Matches(s, from) ==> MatchAt(s, r.nameStart) == Some(r)
    decreases |s| - from
  {
    if Exec(s, from).Some? {
      ExecLeftmost(s, from);
      MatchesGenuine(s, Exec(s, from).value.valueEnd + 1);
    }
  }

  /** The name and the value one match reads. */
  function PairOf(s: string, r: AttrMatch): (string, string)
    requires Within(s, r)
  {
    (s[r.nameStart..r.nameEnd], s[r.valueStart..r.valueEnd])
  }

  /** The name/value pairs the matches `ms` read, in order. */
  function Texts(s: string, ms: seq<AttrMatch>): (ps: seq<(string, string)>)
    requires forall r :: r in ms ==> Within(s, r)
    ensures |ps| == |ms|
    decreases |ms|
  {
    if ms == [] then [] else [PairOf(s, ms[0])] + Texts(s, ms[1..])
  }

  lemma TextsCons(s: string, r: AttrMatch, ms: seq<AttrMatch>)
    requires Within(s, r) && forall r' :: r' in ms ==> Within(s, r')
    ensures Texts(s, [r] + ms) == [PairOf(s, r)] + Texts(s, ms)
  {
    assert ([r] + ms)[1..] == ms;
  }

  /** The name/value pairs of the successive `exec` results from `lastIndex == from` on. */
  function Pairs(s: string, from: nat): (ps: seq<(string, string)>)
    requires from <= |s|
  {
    Texts(s, Matches(s, from))
  }

  /** A genuine match reads a well-formed pair. */
  lemma MatchWellFormed(s: string, r: AttrMatch)
    requires Within(s, r) && MatchAt(s, r.nameStart) == Some(r)
    ensures WellFormed(PairOf(s, r))
  {
    MatchAtLongest(s, r.nameStart);
    assert MatchesAt(s, r.nameStart, r.nameEnd);
    TailValue(s, r.nameEnd);
  }

  lemma {:induction false} TextsWellFormed(s: string, ms: seq<AttrMatch>)
    requires forall r :: r in ms ==> Within(s, r) && MatchAt(s, r.nameStart) == Some(r)
    ensures forall p :: p in Texts(s, ms) ==> WellFormed(p)
    decreases |ms|
  {
    if ms != [] {
      MatchWellFormed(s, ms[0]);
      assert forall r :: r in ms[1..] ==> r in ms;
      TextsWellFormed(s, ms[1..]);
    }
  }

  /** Every pair read has a non-empty name without whitespace and a value without `"`. */
  lemma PairsWellFormed(s: string, from: nat)
    requires from <= |s|
    ensures forall p :: p in Pairs(s, from) ==> WellFormed(p)
  {
    MatchesGenuine(s, from);
    TextsWellFormed(s, Matches(s, from));
  }

  /** The first pair read from `from` on comes from `Exec`; the rest are read after it. */
  lemma PairsFirst(s: string, from: nat)
    requires from <= |s| && Exec(s, from).Some?
    ensures var r := Exec(s, from).value;
      Pairs(s, from) == [PairOf(s, r)] + Pairs(s, r.valueEnd + 1)
  {
    var r := Exec(s, from).value;
    TextsCons(s, r, Matches(s, r.valueEnd + 1));
  }

  /**
   * One round of the loop of `parseAttributes`: storing the match `exec` returns at `from`
   * and resuming after its closing quote leaves the pairs still to be stored in step.
   */
  lemma ReadOne(s: string, from: nat, before: AttrList, after: AttrList, next: nat)
    requires from <= |s| && Exec(s, from).Some?
    requires var m := Exec(s, from).value;
      after == Put(before, s[m.nameStart..m.nameEnd], s[m.valueStart..m.valueEnd]) && next == m.valueEnd + 1
    ensures from < next <= |s|
    ensures PutAll(after, Pairs(s, next)) == PutAll(before, Pairs(s, from))
  {
    var m := Exec(s, from).value;
    PairsFirst(s, from);
    PutAllCons(before, PairOf(s, m), Pairs(s, next));
  }

  /** The object `parseAttributes` returns for `s`, as a function of `s`. */
  function Parsed(s: string): (attributes: AttrList) {
    PutAll([], Pairs(s, 0))
  }

  /** The keys of the object come in the order of their first match, each once. */
  lemma ParsedKeys(s: string)
    ensures Keys(Parsed(s)) == Dedup(Keys(Pairs(s, 0)))
  {
    PutAllKeys([], Pairs(s, 0));
    WithoutNothing(Dedup(Keys(Pairs(s, 0))));
  }

  /** The object is empty exactly when the pattern matches nowhere in `s`. */
  lemma ParsedEmpty(s: string)
    ensures Parsed(s) == [] <==> forall i, j :: !MatchesAt(s, i, j)
  {
    ExecLeftmost(s, 0);
    if Exec(s, 0).None? {
      assert Matches(s, 0) == [];
    } else {
      var m := Exec(s, 0).value;
      PairsFirst(s, 0);
      PutAllNonEmpty(Pairs(s, 0));
      assert MatchesAt(s, m.nameStart, m.nameEnd);
    }
  }

  method ParseAttributes(attributeString: string) returns (attributes: AttrList)
    ensures attributes == Parsed(attributeString)
    ensures UniqueKeys(attributes)
    ensures forall e :: e in attributes ==> WellFormed(e)
    ensures forall k :: Lookup(attributes, k) == LastValue(Pairs(attributeString, 0), k)
    ensures Keys(attributes) == Dedup(Keys(Pairs(attributeString, 0)))
    ensures attributes == [] <==> forall i, j :: !MatchesAt(attributeString, i, j)
  {
    attributes := [];
    var lastIndex := 0;
    var found := Exec(attributeString, lastIndex);
    while found.Some?
      invariant lastIndex <= |attributeString|
      invariant found == Exec(attributeString, lastIndex)
      invariant PutAll(attributes, Pairs(attributeString, lastIndex)) == Parsed(attributeString)
      decreases |attributeString| - lastIndex
    {
      var m := found.value;
      ghost var before, from := attributes, lastIndex;
      attributes := Put(attributes, attributeString[m.nameStart..m.nameEnd], attributeString[m.valueStart..m.valueEnd]);
      lastIndex := m.valueEnd + 1;
      ReadOne(attributeString, from, before, attributes, lastIndex);
      found := Exec(attributeString, lastIndex);
    }
    var ps := Pairs(attributeString, 0);
    PutAllKeepsUnique([], ps);
    PutAllEntries([], ps);
    PairsWellFormed(attributeString, 0);
    ParsedEmpty(attributeString);
    ParsedKeys(attributeString);
    forall k ensures Lookup(attributes, k) == LastValue(ps, k) {
      PutAllLookup([], ps, k);
    }
  }

  // ---------------------------------------------------------------------------
  // Parsing inverts the attribute text that combineSVGs writes
  // ---------------------------------------------------------------------------

  /** An entry whose text ` name="value"` cannot be read back any other way. */
  predicate Plain(e: (string, string)) {
    e.0 != "" && NoSpace(e.0) && '=' !in e.0 && '"' !in e.1 && '=' !in e.1
  }

  /** Where the name and the value of ` name="value"`, written from `p` on, lie. */
  function EntryMatch(p: nat, e: (string, string)): (r: AttrMatch) {
    AttrMatch(p + 1, p + 1 + |e.0|, p + 3 + |e.0|, p + 3 + |e.0| + |e.1|)
  }

  /** At `q` the text ends, or the space and the first name character of a further entry follow. */
  predicate EntryFollows(s: string, q: nat) {
    q == |s| || (q + 1 < |s| && s[q] == ' ' && !IsSpace(s[q + 1]) && s[q + 1] != '=')
  }

  /**
   * ` name="value"` lies in `s` from the space at `p` on, with its name and value at the
   * bounds of `r`, and is followed by the end of `s` or by a further such entry.
   */
  predicate EntryShape(s: string, p: nat, r: AttrMatch) {
    && r.nameStart == p + 1 && r.nameStart < r.nameEnd && r.valueStart == r.nameEnd + 2
    && r.valueStart <= r.valueEnd < |s|
    && s[p] == ' ' && s[r.nameEnd] == '=' && s[r.nameEnd + 1] == '"' && s[r.valueEnd] == '"'
    && (forall t :: r.nameStart <= t < r.nameEnd ==> NotSpaceAt(s, t))
    && (forall t :: r.nameEnd < t <= r.valueEnd ==> NotAt(s, t, '='))
    && (forall t :: r.valueStart <= t < r.valueEnd ==> NotAt(s, t, '"'))
    && EntryFollows(s, r.valueEnd + 1)
  }

  /** `\s*=\s*"([^"]*)"` at an `=` directly followed by a quoted value. */
  lemma TailAtQuoted(s: string, a: nat, c: nat)
    requires a + 2 <= c < |s| && s[a] == '=' && s[a + 1] == '"' && s[c] == '"'
    requires forall t :: a + 2 <= t < c ==> s[t] != '"'
    ensures TailAt(s, a) == Some(Tail(a + 2, c))
  {
    assert Span(s, a, true) == a;
    assert Span(s, a + 1, true) == a + 1;
    IndexOfFirst(s, '"', a + 2);
  }

  /** No tail matches at `t` when no `=` lies between `t` and a non-space character at `b`. */
  lemma NoTailBefore(s: string, t: nat, b: nat)
    requires t <= b <= |s|
    requires forall x :: t <= x < b ==> s[x] != '='
    requires b < |s| ==> !IsSpace(s[b]) && s[b] != '='
    ensures TailAt(s, t).None?
  {
    SpanRun(s, t, true);
  }

  /** The greedy name stops at `a` when the tail matches there and at no later end up to `j`. */
  lemma {:induction false} LongestNameAt(s: string, i: nat, j: nat, a: nat)
    requires i < a <= j <= |s| && TailAt(s, a).Some?
    requires forall t :: a < t <= j ==> TailAt(s, t).None?
    ensures LongestName(s, i, j) == Some(a)
    decreases j
  {
    if j > a {
      LongestNameAt(s, i, j - 1, a);
    }
  }

  /** `MatchAt` reports the name end that `LongestName` picks and the value its tail bounds. */
  lemma MatchAtPicks(s: string, i: nat, j: nat)
    requires i < |s| && !IsSpace(s[i]) && i < Span(s, i, false)
    requires LongestName(s, i, Span(s, i, false)) == Some(j)
    ensures TailAt(s, j).Some?
    ensures MatchAt(s, i) == Some(AttrMatch(i, j, TailAt(s, j).value.valueStart, TailAt(s, j).value.valueEnd))
  {
    LongestNameIsLongest(s, i, Span(s, i, false));
  }

  /** Tried at the first character of an entry's name, the greedy name stops at its `=`. */
  lemma NameOfEntry(s: string, p: nat, r: AttrMatch)
    requires EntryShape(s, p, r)
    ensures && p + 1 < |s| && !IsSpace(s[p + 1]) && p + 1 < Span(s, p + 1, false)
      && LongestName(s, p + 1, Span(s, p + 1, false)) == Some(r.nameEnd)
      && TailAt(s, r.nameEnd) == Some(Tail(r.valueStart, r.valueEnd))
  {
    var a, c := r.nameEnd, r.valueEnd;
    var b := if c + 1 == |s| then c + 1 else c + 2;
    forall t | p + 1 <= t < a ensures !IsSpace(s[t]) {
      assert NotSpaceAt(s, t);
    }
    forall t | a < t <= c ensures s[t] != '=' {
      assert NotAt(s, t, '=');
    }
    forall t | a + 2 <= t < c ensures s[t] != '"' {
      assert NotAt(s, t, '"');
    }
    var e := Span(s, p + 1, false);
    SpanRun(s, p + 1, false);
    assert a <= e;
    assert e <= c + 1;
    TailAtQuoted(s, a, c);
    forall t | a < t <= e ensures TailAt(s, t).None? {
      NoTailBefore(s, t, b);
    }
    LongestNameAt(s, p + 1, e, a);
  }

  /** Tried at the space before an entry, `exec` reads exactly that entry. */
  lemma ExecAtEntry(s: string, p: nat, r: AttrMatch)
    requires EntryShape(s, p, r)
    ensures Exec(s, p) == Some(r)
  {
    NameOfEntry(s, p, r);
    MatchAtPicks(s, p + 1, r.nameEnd);
    assert IsSpace(s[p]);
    assert MatchAt(s, p) == None;
    assert Exec(s, p) == Exec(s, p + 1);
  }

  /** `exec` at the front of laid-out entries reads the first of them. */
  lemma ExecAtEntries(s: string, p: nat, m: AttrList)
    requires m != [] && ShapesAt(s, p, m)
    ensures Exec(s, p) == Some(EntryMatch(p, m[0]))
    ensures ShapesAt(s, EntryMatch(p, m[0]).valueEnd + 1, m[1..])
  {
    ExecAtEntry(s, p, EntryMatch(p, m[0]));
  }

  /** The text of the first entry, then the text of the others. */
  lemma AttrTextFirst(m: AttrList)
    requires m != []
    ensures AttrText(m) == (" " + m[0].0 + "=\"" + m[0].1 + "\"") + AttrText(m[1..])
  {
  }

  /** ` name="value"` written at `p`, and followed by what may follow an entry, has an `EntryShape`. */
  lemma PieceShape(s: string, p: nat, e: (string, string), x: string)
    requires Plain(e) && x == " " + e.0 + "=\"" + e.1 + "\""
    requires p + |x| <= |s| && s[p..p + |x|] == x && EntryFollows(s, p + |x|)
    ensures EntryMatch(p, e).valueEnd + 1 == p + |x|
    ensures EntryShape(s, p, EntryMatch(p, e))
  {
    EntryPiece(s, p, e, x);
    ShapeOfEntry(s, p, e);
  }

  /** Where the characters of ` name="value"` lie when it is written at `p`. */
  lemma EntryPiece(s: string, p: nat, e: (string, string), x: string)
    requires x == " " + e.0 + "=\"" + e.1 + "\""
    requires p + |x| <= |s| && s[p..p + |x|] == x
    ensures var r := EntryMatch(p, e);
      && r.valueEnd < |s| && r.valueEnd + 1 == p + |x|
      && s[p] == ' ' && s[r.nameStart..r.nameEnd] == e.0 && s[r.nameEnd] == '=' && s[r.nameEnd + 1] == '"'
      && s[r.valueStart..r.valueEnd] == e.1 && s[r.valueEnd] == '"'
  {
    var k, v := e.0, e.1;
    var r := EntryMatch(p, e);
    var w := s[p..p + |x|];
    assert w[0] == s[p] && w[|k| + 1] == s[r.nameEnd] && w[|k| + 2] == s[r.nameEnd + 1];
    assert w[|k| + |v| + 3] == s[r.valueEnd];
    forall t | 0 <= t < |k| ensures s[p + 1 + t] == k[t] {
      assert w[1 + t] == k[t];
    }
    forall t | 0 <= t < |v| ensures s[r.valueStart + t] == v[t] {
      assert w[|k| + 3 + t] == v[t];
    }
  }

  /** After an entry's closing quote: the end of the text, or the space and name of the next entry. */
  lemma NextEntry(s: string, q: nat, m: AttrList)
    requires q <= |s| && s[q..] == AttrText(m)
    requires m != [] ==> Plain(m[0])
    ensures m == [] <==> q == |s|
    ensures EntryFollows(s, q)
  {
    if m != [] {
      var k := m[0].0;
      AttrTextFirst(m);
      var w := AttrText(m);
      assert w[0] == ' ' && w[1] == k[0];
      assert s[q] == w[0] && s[q + 1] == w[1];
      assert k[0] in k;
    }
  }

  /** Facts about a slice hold of each of its characters. */
  lemma SliceChars(s: string, i: nat, j: nat, x: string)
    requires i <= j <= |s| && s[i..j] == x
    ensures forall t :: i <= t < j ==> s[t] == x[t - i]
  {
    forall t | i <= t < j ensures s[t] == x[t - i] {
      assert s[i..j][t - i] == s[t];
    }
  }

  /** The characters of a plain entry written at `p` form an `EntryShape`. */
  lemma ShapeOfEntry(s: string, p: nat, e: (string, string))
    requires Plain(e)
    requires var r := EntryMatch(p, e);
      && r.valueEnd < |s| && s[p] == ' ' && s[r.nameStart..r.nameEnd] == e.0 && s[r.nameEnd] == '='
      && s[r.nameEnd + 1] == '"' && s[r.valueStart..r.valueEnd] == e.1 && s[r.valueEnd] == '"'
      && EntryFollows(s, r.valueEnd + 1)
    ensures EntryShape(s, p, EntryMatch(p, e))
  {
    var r := EntryMatch(p, e);
    var k, v := e.0, e.1;
    SliceChars(s, r.nameStart, r.nameEnd, k);
    SliceChars(s, r.valueStart, r.valueEnd, v);
    forall t | r.nameStart <= t < r.nameEnd ensures NotSpaceAt(s, t) {
      assert s[t] == k[t - r.nameStart];
    }
    forall t | r.nameEnd < t <= r.valueEnd ensures NotAt(s, t, '=') {
      if r.valueStart <= t < r.valueEnd {
        assert s[t] == v[t - r.valueStart];
        assert v[t - r.valueStart] in v;
      }
    }
    forall t | r.valueStart <= t < r.valueEnd ensures NotAt(s, t, '"') {
      assert s[t] == v[t - r.valueStart];
      assert v[t - r.valueStart] in v;
    }
  }

  /** Where the entries of `m` lie when their text starts at `p`: one match per entry. */
  function EntryMatches(p: nat, m: AttrList): (ms: seq<AttrMatch>)
    decreases |m|
  {
    if m == [] then [] else [EntryMatch(p, m[0])] + EntryMatches(EntryMatch(p, m[0]).valueEnd + 1, m[1..])
  }

  /** The entries of `m`, one `EntryShape` after the other, fill `s` from `p` to its end. */
  predicate ShapesAt(s: string, p: nat, m: AttrList)
    decreases |m|
  {
    if m == [] then p == |s|
    else EntryShape(s, p, EntryMatch(p, m[0])) && ShapesAt(s, EntryMatch(p, m[0]).valueEnd + 1, m[1..])
  }

  /** Laid out from `p` on, each entry's name and value sit where `EntryMatches` puts them. */
  predicate TextsAt(s: string, p: nat, m: AttrList)
    decreases |m|
  {
    if m == [] then true
    else
      && Within(s, EntryMatch(p, m[0])) && PairOf(s, EntryMatch(p, m[0])) == m[0]
      && TextsAt(s, EntryMatch(p, m[0]).valueEnd + 1, m[1..])
  }

  /** Past the first entry, the text of the entries continues with the text of the others. */
  lemma AfterFirst(s: string, p: nat, m: AttrList)
    requires p <= |s| && s[p..] == AttrText(m) && m != []
    ensures EntryMatch(p, m[0]).valueEnd + 1 <= |s|
    ensures s[EntryMatch(p, m[0]).valueEnd + 1..] == AttrText(m[1..])
  {
    var x := " " + m[0].0 + "=\"" + m[0].1 + "\"";
    AttrTextFirst(m);
    SliceConcat(s, p, x, AttrText(m[1..]));
    EntryPiece(s, p, m[0], x);
  }

  /** The shape of one plain entry laid out in front of the others. */
  lemma ShapeFirst(s: string, p: nat, m: AttrList)
    requires p <= |s| && s[p..] == AttrText(m) && m != []
    requires forall e :: e in m ==> Plain(e)
    requires var q := EntryMatch(p, m[0]).valueEnd + 1;
      q <= |s| && ShapesAt(s, q, m[1..])
    ensures ShapesAt(s, p, m)
  {
    var x := " " + m[0].0 + "=\"" + m[0].1 + "\"";
    assert m[0] in m;
    if m[1..] != [] {
      assert m[1..][0] in m;
    }
    AttrTextFirst(m);
    SliceConcat(s, p, x, AttrText(m[1..]));
    NextEntry(s, p + |x|, m[1..]);
    PieceShape(s, p, m[0], x);
  }

  /** The name and value of one entry laid out in front of the others. */
  lemma TextFirst(s: string, p: nat, m: AttrList)
    requires p <= |s| && s[p..] == AttrText(m) && m != [] && m[0].0 != ""
    requires var q := EntryMatch(p, m[0]).valueEnd + 1;
      q <= |s| && TextsAt(s, q, m[1..])
    ensures TextsAt(s, p, m)
  {
    var x := " " + m[0].0 + "=\"" + m[0].1 + "\"";
    AttrTextFirst(m);
    SliceConcat(s, p, x, AttrText(m[1..]));
    EntryPiece(s, p, m[0], x);
  }

  lemma PlainRest(m: AttrList)
    requires m != [] && forall e :: e in m ==> Plain(e)
    ensures forall e :: e in m[1..] ==> Plain(e)
  {
    assert forall e :: e in m[1..] ==> e in m;
  }

  /** The attribute text of plain entries lays them out one after the other. */
  lemma {:induction false} ShapesLaidOut(s: string, p: nat, m: AttrList)
    requires p <= |s| && s[p..] == AttrText(m)
    requires forall e :: e in m ==> Plain(e)
    ensures ShapesAt(s, p, m)
    decreases |m|
  {
    if m == [] {
      assert p == |s|;
    } else {
      var q := EntryMatch(p, m[0]).valueEnd + 1;
      assert q <= |s| && ShapesAt(s, q, m[1..]) by {
        AfterFirst(s, p, m);
        PlainRest(m);
        ShapesLaidOut(s, q, m[1..]);
      }
      ShapeFirst(s, p, m);
    }
  }

  /** In the attribute text, each entry's name and value sit at the bounds `EntryMatch` gives. */
  lemma {:induction false} TextsLaidOut(s: string, p: nat, m: AttrList)
    requires p <= |s| && s[p..] == AttrText(m)
    requires forall e :: e in m ==> Plain(e)
    ensures TextsAt(s, p, m)
    decreases |m|
  {
    if m != [] {
      AfterFirst(s, p, m);
      PlainRest(m);
      assert m[0] in m;
      TextsLaidOut(s, EntryMatch(p, m[0]).valueEnd + 1, m[1..]);
      TextFirst(s, p, m);
    }
  }

  lemma MatchesFirst(s: string, p: nat, r: AttrMatch)
    requires p <= |s| && Exec(s, p) == Some(r)
    ensures Matches(s, p) == [r] + Matches(s, r.valueEnd + 1)
  {
  }

  lemma EntryMatchesFirst(p: nat, m: AttrList)
    requires m != []
    ensures EntryMatches(p, m) == [EntryMatch(p, m[0])] + EntryMatches(EntryMatch(p, m[0]).valueEnd + 1, m[1..])
  {
  }

  /** Over laid-out entries, the successive `exec` results are the entries' own bounds. */
  lemma {:induction false} MatchesOfEntries(s: string, p: nat, m: AttrList)
    requires p <= |s| && ShapesAt(s, p, m)
    ensures Matches(s, p) == EntryMatches(p, m)
    decreases |m|
  {
    if m == [] {
      assert Exec(s, p) == None;
    } else {
      var r := EntryMatch(p, m[0]);
      ExecAtEntries(s, p, m);
      MatchesFirst(s, p, r);
      MatchesOfEntries(s, r.valueEnd + 1, m[1..]);
      EntryMatchesFirst(p, m);
      SameFront(Matches(s, p), EntryMatches(p, m), r, Matches(s, r.valueEnd + 1), EntryMatches(r.valueEnd + 1, m[1..]));
    }
  }

  lemma {:induction false} EntryMatchesWithin(s: string, p: nat, m: AttrList)
    requires TextsAt(s, p, m)
    ensures forall r :: r in EntryMatches(p, m) ==> Within(s, r)
    decreases |m|
  {
    if m != [] {
      EntryMatchesWithin(s, EntryMatch(p, m[0]).valueEnd + 1, m[1..]);
    }
  }

  /** Reading one match more in front adds its pair in front. */
  lemma TextsStep(s: string, r: AttrMatch, rest: seq<AttrMatch>, m: AttrList)
    requires Within(s, r) && forall r' :: r' in rest ==> Within(s, r')
    requires m != [] && PairOf(s, r) == m[0] && Texts(s, rest) == m[1..]
    ensures Texts(s, [r] + rest) == m
  {
    TextsCons(s, r, rest);
    assert [m[0]] + m[1..] == m;
  }

  /** The pairs read at the entries' bounds are the entries. */
  lemma {:induction false} TextsOfEntries(s: string, p: nat, m: AttrList)
    requires TextsAt(s, p, m)
    requires forall r :: r in EntryMatches(p, m) ==> Within(s, r)
    ensures Texts(s, EntryMatches(p, m)) == m
    decreases |m|
  {
    if m != [] {
      var r := EntryMatch(p, m[0]);
      var rest := EntryMatches(r.valueEnd + 1, m[1..]);
      assert forall r' :: r' in rest ==> r' in [r] + rest;
      TextsOfEntries(s, r.valueEnd + 1, m[1..]);
      TextsStep(s, r, rest, m);
    }
  }

  /**
   * `parseAttributes` reads back the attribute text that combineSVGs writes for a map,
   * when no name is empty or holds whitespace or `=` and no value holds `"` or `=`.
   */
  lemma ParseInvertsAttrText(m: AttrList)
    requires UniqueKeys(m)
    requires forall e :: e in m ==> Plain(e)
    ensures Parsed(AttrText(m)) == m
  {
    var s := AttrText(m);
    assert s[0..] == s;
    ShapesLaidOut(s, 0, m);
    TextsLaidOut(s, 0, m);
    MatchesOfEntries(s, 0, m);
    EntryMatchesWithin(s, 0, m);
    TextsOfEntries(s, 0, m);
    assert [] + m == m;
    PutAllFresh([], m);
  }
}
