/**
 * `mergeAttributes(target, source)`: folds the attributes of one child `<svg>` into the
 * attributes collected so far for the combined `<svg>`. The collected attributes are an
 * object updated in place, modelled as an `AttributeSet` whose `entries` the merge
 * reassigns. Reserved keys are skipped, `class` lists are united, and any other key keeps
 * the first non-empty value it was given.
 */
module AttrMerge {
  import opened Builtins
  import opened AttrMaps

  /** The keys the merge never copies, because `combineSVGs` computes them itself. */
  const Reserved: seq<string> := ["width", "height", "viewBox"]

  // ---------------------------------------------------------------------------
  // Uniting two class lists
  // ---------------------------------------------------------------------------

  /**
   * The class names of `existing` followed by those of `incoming`, each once, in the
   * order a `Set` built from the first list and then fed the second one iterates them.
   */
  function ClassTokens(existing: string, incoming: string): (tokens: seq<string>) {
    Dedup(Split(existing) + Split(incoming))
  }

  /** The united class list, its names joined by single spaces. */
  function ClassUnion(existing: string, incoming: string): (joined: string) {
    Join(ClassTokens(existing, incoming), " ")
  }

  /**
   * The united names are those of either list, each once; the existing names keep their
   * places at the front and the new ones follow in the order the incoming list gives them.
   */
  lemma ClassTokensSpec(existing: string, incoming: string)
    ensures NoDup(ClassTokens(existing, incoming))
    ensures forall c :: c in ClassTokens(existing, incoming) <==> c in Split(existing) || c in Split(incoming)
    ensures ClassTokens(existing, incoming) ==
      Dedup(Split(existing)) + Dedup(Without(Split(incoming), Split(existing)))
  {
    var a, b := Split(existing), Split(incoming);
    DedupNoDup(a + b);
    DedupMembers(a + b);
    DedupAppend(a, b);
  }

  /**
   * When neither list has an empty piece (no leading or trailing whitespace, not empty),
   * splitting the united list gives back exactly the united names.
   */
  lemma ClassUnionSplits(existing: string, incoming: string)
    requires forall c :: c in Split(existing) + Split(incoming) ==> c != ""
    ensures Split(ClassUnion(existing, incoming)) == ClassTokens(existing, incoming)
  {
    var a, b := Split(existing), Split(incoming);
    var u := ClassTokens(existing, incoming);
    DedupMembers(a + b);
    SplitNoSpace(existing);
    SplitNoSpace(incoming);
    assert a[0] in a + b;
    forall c | c in u ensures c != "" && NoSpace(c) {
      assert c in a || c in b;
    }
    SplitJoin(u);
  }

  /** `new Set(existing.split(/\s+/))`, then `add` for each incoming name, then `join(' ')`. */
  method UnionClasses(existing: string, incoming: string) returns (joined: string)
    ensures joined == ClassUnion(existing, incoming)
  {
    var classes := Dedup(Split(existing));
    var newClasses := Split(incoming);
    assert Split(existing) + newClasses[..0] == Split(existing);
    for i := 0 to |newClasses|
      invariant classes == Dedup(Split(existing) + newClasses[..i])
    {
      assert Split(existing) + newClasses[..i + 1] == (Split(existing) + newClasses[..i]) + [newClasses[i]];
      DedupSnoc(Split(existing) + newClasses[..i], newClasses[i]);
      if newClasses[i] !in classes {
        classes := classes + [newClasses[i]];
      }
    }
    assert newClasses[..|newClasses|] == newClasses;
    joined := Join(classes, " ");
  }

  // ---------------------------------------------------------------------------
  // The merge as a function of the entries
  // ---------------------------------------------------------------------------

  /**
   * What one source entry `k="v"` does to the collected entries `t`: a reserved key changes
   * nothing; `class` is set when it is missing or empty and united otherwise; any other key
   * is set only when its value is missing or empty. No other key changes.
   */
  function MergeEntry(t: AttrList, k: string, v: string): (r: AttrList)
    ensures k in Reserved ==> r == t
    ensures forall k' :: k' != k ==> Lookup(r, k') == Lookup(t, k')
    ensures k == "class" ==>
      Lookup(r, k) == Some(if Truthy(Lookup(t, k)) then ClassUnion(Lookup(t, k).value, v) else v)
    ensures k !in Reserved && k != "class" ==>
      Lookup(r, k) == if Truthy(Lookup(t, k)) then Lookup(t, k) else Some(v)
  {
    if k in Reserved then t
    else if k == "class" then
      var current := Lookup(t, "class");
      if !Truthy(current) then Put(t, "class", v)
      else Put(t, "class", ClassUnion(current.value, v))
    else if !Truthy(Lookup(t, k)) then Put(t, k, v)
    else t
  }

  /** The collected entries after the source entries have been merged one by one, in order. */
  function Merged(t: AttrList, source: AttrList): (r: AttrList)
    decreases |source|
  {
    if source == [] then t
    else
      var e := source[|source| - 1];
      MergeEntry(Merged(t, source[..|source| - 1]), e.0, e.1)
  }

  lemma MergedSnoc(t: AttrList, source: AttrList, e: (string, string))
    ensures Merged(t, source + [e]) == MergeEntry(Merged(t, source), e.0, e.1)
  {
    assert (source + [e])[..|source + [e]| - 1] == source;
  }

  /** An object with the attributes of `AttrMaps`, changed in place. */
  class AttributeSet {
    var entries: AttrList

    /** `{}`. */
    constructor ()
      ensures entries == []
    {
      entries := [];
    }

    /** `obj[k] = v`. */
    method Set(k: string, v: string)
      modifies this
      ensures entries == Put(old(entries), k, v)
    {
      entries := Put(entries, k, v);
    }
  }

  /** `mergeAttributes(target, source)`: the loop over `Object.entries(source)`. */
  method MergeAttributes(target: AttributeSet, source: AttrList)
    modifies target
    ensures target.entries == Merged(old(target.entries), source)
  {
    for i := 0 to |source|
      invariant target.entries == Merged(old(target.entries), source[..i])
    {
      var key, value := source[i].0, source[i].1;
      MergedSnoc(old(target.entries), source[..i], (key, value));
      assert source[..i] + [(key, value)] == source[..i + 1];
      MergeOne(target, key, value);
    }
    assert source[..|source|] == source;
  }

  /** The body of that loop for one entry `key="value"` of the source. */
  method MergeOne(target: AttributeSet, key: string, value: string)
    modifies target
    ensures target.entries == MergeEntry(old(target.entries), key, value)
  {
    if key !in Reserved {
      if key == "class" {
        var current := Lookup(target.entries, "class");
        if !Truthy(current) {
          target.Set("class", value);
        } else {
          var joined := UnionClasses(current.value, value);
          target.Set("class", joined);
        }
      } else if !Truthy(Lookup(target.entries, key)) {
        target.Set(key, value);
      }
    }
  }

  // ---------------------------------------------------------------------------
  // What the merge promises
  // ---------------------------------------------------------------------------

  /** `width`, `height` and `viewBox` are never written, and neither is a key the source lacks. */
  lemma {:induction false} MergedUntouched(t: AttrList, source: AttrList, k: string)
    requires k in Reserved || k !in Keys(source)
    ensures Lookup(Merged(t, source), k) == Lookup(t, k)
    decreases |source|
  {
    if source != [] {
      var s', e := source[..|source| - 1], source[|source| - 1];
      assert source == s' + [e];
      KeysSnoc(s', e);
      MergedUntouched(t, s', k);
    }
  }

  /** Collected entries without reserved keys stay without them. */
  lemma MergedNoReserved(t: AttrList, source: AttrList)
    requires forall k :: k in Reserved ==> k !in Keys(t)
    ensures forall k :: k in Reserved ==> k !in Keys(Merged(t, source))
  {
    forall k | k in Reserved ensures k !in Keys(Merged(t, source)) {
      MergedUntouched(t, source, k);
    }
  }

  /**
   * Any other key except `class` keeps a non-empty value it already has; otherwise it takes
   * the source's value, when the source has one.
   */
  lemma {:induction false} MergedFirstWins(t: AttrList, source: AttrList, k: string)
    requires UniqueKeys(source) && k != "class" && k !in Reserved
    ensures Lookup(Merged(t, source), k) ==
      if Truthy(Lookup(t, k)) || Lookup(source, k).None? then Lookup(t, k) else Lookup(source, k)
    decreases |source|
  {
    if source != [] {
      var s', e := source[..|source| - 1], source[|source| - 1];
      assert source == s' + [e];
      UniqueSnoc(s', e);
      LookupSnoc(s', e, k);
      MergedFirstWins(t, s', k);
      if e.0 == k {
        MergedUntouched(t, s', k);
      }
    }
  }

  /**
   * `class`: a source class list is copied as it is when the collected value is missing or
   * empty, and otherwise united with the collected one.
   */
  lemma {:induction false} MergedClass(t: AttrList, source: AttrList)
    requires UniqueKeys(source)
    ensures Lookup(Merged(t, source), "class") ==
      match Lookup(source, "class")
      case None => Lookup(t, "class")
      case Some(v) =>
        if Truthy(Lookup(t, "class")) then Some(ClassUnion(Lookup(t, "class").value, v)) else Some(v)
    decreases |source|
  {
    if source != [] {
      var s', e := source[..|source| - 1], source[|source| - 1];
      assert source == s' + [e];
      UniqueSnoc(s', e);
      LookupSnoc(s', e, "class");
      MergedClass(t, s');
      if e.0 == "class" {
        MergedUntouched(t, s', "class");
      }
    }
  }

  /** One entry adds its key last when the key is new and not reserved, and no key otherwise. */
  lemma MergeEntryKeys(m: AttrList, k: string, v: string)
    ensures Keys(MergeEntry(m, k, v)) ==
      if k in Reserved || k in Keys(m) then Keys(m) else Keys(m) + [k]
  {
    PutKeys(m, k, v);
    if k == "class" && Truthy(Lookup(m, "class")) {
      PutKeys(m, "class", ClassUnion(Lookup(m, "class").value, v));
    }
  }

  /**
   * The collected keys keep their places, and the source's new keys that are not reserved
   * follow, in the order the source lists them.
   */
  lemma {:induction false} MergedKeys(t: AttrList, source: AttrList)
    requires UniqueKeys(source)
    ensures Keys(Merged(t, source)) == Keys(t) + Without(Keys(source), Keys(t) + Reserved)
    decreases |source|
  {
    if source == [] {
      assert Keys(t) + [] == Keys(t);
    } else {
      var s', e := source[..|source| - 1], source[|source| - 1];
      var before := Keys(t) + Reserved;
      assert source == s' + [e];
      UniqueSnoc(s', e);
      KeysSnoc(s', e);
      WithoutSnoc(Keys(s'), e.0, before);
      MergedKeys(t, s');
      WithoutMembers(Keys(s'), before);
      MergeEntryKeys(Merged(t, s'), e.0, e.1);
      KeysStep(Keys(t), Without(Keys(s'), before), e.0, Reserved);
    }
  }

  /** The arithmetic of sequences behind one step of `MergedKeys`. */
  lemma KeysStep(kt: seq<string>, w: seq<string>, k: string, reserved: seq<string>)
    requires k !in w
    ensures (if k in reserved || k in kt + w then kt + w else kt + w + [k]) ==
      kt + (w + (if k in kt + reserved then [] else [k]))
  {
  }

  /** Merging keeps the collected keys distinct. */
  lemma {:induction false} MergedUnique(t: AttrList, source: AttrList)
    requires UniqueKeys(t)
    ensures UniqueKeys(Merged(t, source))
    decreases |source|
  {
    if source != [] {
      var s', e := source[..|source| - 1], source[|source| - 1];
      MergedUnique(t, s');
      var m' := Merged(t, s');
      PutKeepsUnique(m', e.0, e.1);
      PutKeepsUnique(m', "class", e.1);
      if Lookup(m', "class").Some? {
        PutKeepsUnique(m', "class", ClassUnion(Lookup(m', "class").value, e.1));
      }
    }
  }

  /** Merging the same source a second time changes no key other than `class`. */
  lemma MergeTwiceKeepsOthers(t: AttrList, source: AttrList, k: string)
    requires UniqueKeys(source) && k != "class"
    ensures Lookup(Merged(Merged(t, source), source), k) == Lookup(Merged(t, source), k)
  {
    if k in Reserved {
      MergedUntouched(Merged(t, source), source, k);
    } else {
      MergedFirstWins(t, source, k);
      MergedFirstWins(Merged(t, source), source, k);
    }
  }

  /** `"a a".split(/\s+/)`. */
  lemma SplitRepeated()
    ensures Split("a a") == ["a", "a"]
  {
    var s := "a a";
    assert Span(s, 0, false) == 1 by {
      assert Span(s, 1, false) == 1;
    }
    assert Span(s, 1, true) == 2 by {
      assert Span(s, 2, true) == 2;
    }
    assert s[..1] == "a" && s[2..] == "a";
    assert Span("a", 0, false) == 1 by {
      assert Span("a", 1, false) == 1;
    }
    assert Split("a") == ["a"];
    assert Split(s) == [s[..1]] + Split(s[2..]);
  }

  /** A set fed one name four times holds it once. */
  lemma DedupRepeated()
    ensures Dedup(["a", "a", "a", "a"]) == ["a"]
  {
    assert ["a", "a", "a", "a"][..3] == ["a", "a", "a"];
    assert ["a", "a", "a"][..2] == ["a", "a"];
    assert ["a", "a"][..1] == ["a"];
    assert ["a"][..0] == [];
  }

  /**
   * The `class` key is the exception: a class list with a repeated name is copied as it is
   * the first time, and loses the repeat when it is merged again.
   */
  lemma MergeTwiceClass()
    ensures Lookup(Merged([], [("class", "a a")]), "class") == Some("a a")
    ensures Lookup(Merged(Merged([], [("class", "a a")]), [("class", "a a")]), "class") == Some("a")
  {
    var e := ("class", "a a");
    MergedSnoc([], [], e);
    assert [] + [e] == [e];
    var once := Merged([], [e]);
    assert once == [e];
    MergedSnoc(once, [], e);
    SplitRepeated();
    DedupRepeated();
    assert ["a", "a"] + ["a", "a"] == ["a", "a", "a", "a"];
    assert ClassUnion("a a", "a a") == "a";
  }
}
