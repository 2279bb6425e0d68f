/**
 * A plain JavaScript object used as a string dictionary, as index.js uses `attributes`,
 * `target` and `mergedSvgAttributes`: its entries in insertion order. Assigning to an
 * existing key keeps the key's place; a new key goes last; reading a missing key is
 * `undefined`, modelled as `None`.
 */
module AttrMaps {
  import opened Builtins

  type AttrList = seq<(string, string)>

  function Keys(m: AttrList): (ks: seq<string>)
    ensures |ks| == |m|
  {
    if m == [] then [] else [m[0].0] + Keys(m[1..])
  }

  lemma {:induction false} KeysAt(m: AttrList)
    ensures forall i :: 0 <= i < |m| ==> Keys(m)[i] == m[i].0
    decreases |m|
  {
    if m != [] {
      KeysAt(m[1..]);
    }
  }

  lemma {:induction false} KeysAppend(a: AttrList, b: AttrList)
    ensures Keys(a + b) == Keys(a) + Keys(b)
    decreases |a|
  {
    if a != [] {
      assert (a + b)[1..] == a[1..] + b;
      KeysAppend(a[1..], b);
    } else {
      assert a + b == b;
    }
  }

  predicate UniqueKeys(m: AttrList) {
    NoDup(Keys(m))
  }

  /** `obj[k]`: the value stored under `k`, or `None` when `k` is not a key. */
  function Lookup(m: AttrList, k: string): (r: Option<string>)
    ensures r.None? <==> k !in Keys(m)
    ensures r.Some? ==> (k, r.value) in m
  {
    if m == [] then None
    else if m[0].0 == k then Some(m[0].1)
    else Lookup(m[1..], k)
  }

  /** The truthiness of `obj[k]` when every value is a string: present and not empty. */
  predicate Truthy(v: Option<string>)
    ensures Truthy(v) <==> v != None && v != Some("")
  {
    v.Some? && v.value != ""
  }

  /** In an object with one entry per key, reading a key gives the value of its entry. */
  lemma {:induction false} LookupUnique(m: AttrList, k: string, v: string)
    requires UniqueKeys(m) && (k, v) in m
    ensures Lookup(m, k) == Some(v)
    decreases |m|
  {
    KeysAt(m);
    var i :| 0 <= i < |m| && m[i] == (k, v);
    if i > 0 {
      assert m[0].0 != k by {
        assert Keys(m)[0] != Keys(m)[i];
      }
      assert m[1..][i - 1] == (k, v);
      assert Keys(m[1..]) == Keys(m)[1..];
      LookupUnique(m[1..], k, v);
    }
  }

  /** `!obj[k]` is false exactly when the object holds a non-empty value under `k`. */
  lemma TruthyLookup(m: AttrList, k: string)
    requires UniqueKeys(m)
    ensures Truthy(Lookup(m, k)) <==> exists v :: (k, v) in m && v != ""
  {
    if v :| (k, v) in m && v != "" {
      LookupUnique(m, k, v);
    }
  }

  /** `obj[k] = v`. */
  function Put(m: AttrList, k: string, v: string): (r: AttrList)
    ensures Lookup(r, k) == Some(v)
    ensures forall k' :: k' != k ==> Lookup(r, k') == Lookup(m, k')
    ensures k !in Keys(m) ==> r == m + [(k, v)]
  {
    if m == [] then [(k, v)]
    else if m[0].0 == k then [(k, v)] + m[1..]
    else [m[0]] + Put(m[1..], k, v)
  }

  /** Storing under a key already present keeps every key in its place. */
  lemma {:induction false} PutSameKeys(m: AttrList, k: string, v: string)
    requires k in Keys(m)
    ensures Keys(Put(m, k, v)) == Keys(m)
    decreases |m|
  {
    if m[0].0 != k {
      PutSameKeys(m[1..], k, v);
    }
  }

  /** Storing adds the key last when it is new, and otherwise keeps the keys as they are. */
  lemma PutKeys(m: AttrList, k: string, v: string)
    ensures Keys(Put(m, k, v)) == if k in Keys(m) then Keys(m) else Keys(m) + [k]
  {
    if k in Keys(m) {
      PutSameKeys(m, k, v);
    } else {
      KeysAppend(m, [(k, v)]);
    }
  }

  /** The keys of an object with one more entry at the end. */
  lemma KeysSnoc(m: AttrList, e: (string, string))
    ensures Keys(m + [e]) == Keys(m) + [e.0]
  {
    KeysAppend(m, [e]);
  }

  /** Reading from an object with one more entry at the end finds an earlier entry first. */
  lemma {:induction false} LookupSnoc(m: AttrList, e: (string, string), k: string)
    ensures Lookup(m + [e], k) ==
      if Lookup(m, k).Some? then Lookup(m, k) else if e.0 == k then Some(e.1) else None
    decreases |m|
  {
    if m == [] {
      assert [] + [e] == [e];
    } else {
      assert (m + [e])[1..] == m[1..] + [e];
      LookupSnoc(m[1..], e, k);
    }
  }

  /** Distinct keys stay distinct without the last entry, which is new among the others. */
  lemma UniqueSnoc(m: AttrList, e: (string, string))
    requires UniqueKeys(m + [e])
    ensures UniqueKeys(m) && e.0 !in Keys(m)
  {
    KeysSnoc(m, e);
    var ks := Keys(m) + [e.0];
    assert forall i :: 0 <= i < |m| ==> Keys(m)[i] == ks[i];
    FreshFirst(m, [e]);
  }

  /** Storing invents no entry besides the one stored. */
  lemma {:induction false} PutEntries(m: AttrList, k: string, v: string)
    ensures forall e :: e in Put(m, k, v) ==> e in m || e == (k, v)
    decreases |m|
  {
    if m != [] && m[0].0 != k {
      PutEntries(m[1..], k, v);
      assert forall e :: e in m[1..] ==> e in m;
    }
  }

  /** Storing keeps keys distinct. */
  lemma PutKeepsUnique(m: AttrList, k: string, v: string)
    requires UniqueKeys(m)
    ensures UniqueKeys(Put(m, k, v))
  {
    var r := Put(m, k, v);
    if k !in Keys(m) {
      KeysAppend(m, [(k, v)]);
      assert Keys(r) == Keys(m) + [k];
    } else {
      PutSameKeys(m, k, v);
    }
  }

  /** The pairs of `ps` stored one after the other, each by `Put`. */
  function PutAll(m: AttrList, ps: seq<(string, string)>): (r: AttrList)
    decreases |ps|
  {
    if ps == [] then m else PutAll(Put(m, ps[0].0, ps[0].1), ps[1..])
  }

  lemma PutAllCons(m: AttrList, p: (string, string), ps: seq<(string, string)>)
    ensures PutAll(m, [p] + ps) == PutAll(Put(m, p.0, p.1), ps)
  {
    assert ([p] + ps)[1..] == ps;
  }

  /** Storing one more pair at the end of a run is storing it into the result of the run. */
  lemma {:induction false} PutAllSnoc(m: AttrList, ps: seq<(string, string)>, p: (string, string))
    ensures PutAll(m, ps + [p]) == Put(PutAll(m, ps), p.0, p.1)
    decreases |ps|
  {
    if ps == [] {
      assert [] + [p] == [p];
    } else {
      assert (ps + [p])[1..] == ps[1..] + [p];
      PutAllSnoc(Put(m, ps[0].0, ps[0].1), ps[1..], p);
    }
  }

  /**
   * After a run of assignments the old keys keep their places, and the keys the run
   * introduces follow in the order of their first assignment.
   */
  lemma {:induction false} PutAllKeys(m: AttrList, ps: seq<(string, string)>)
    ensures Keys(PutAll(m, ps)) == Keys(m) + Without(Dedup(Keys(ps)), Keys(m))
    decreases |ps|
  {
    if ps == [] {
      assert Keys(m) + [] == Keys(m);
    } else {
      var ps', p := ps[..|ps| - 1], ps[|ps| - 1];
      assert ps == ps' + [p];
      assert Keys(ps) == Keys(ps') + [p.0] by {
        KeysSnoc(ps', p);
      }
      assert Keys(PutAll(m, ps)) == Keys(Put(PutAll(m, ps'), p.0, p.1)) by {
        PutAllSnoc(m, ps', p);
      }
      PutKeys(PutAll(m, ps'), p.0, p.1);
      PutAllKeys(m, ps');
      PutAllKeysStep(Keys(m), Keys(ps'), p.0, Keys(PutAll(m, ps')));
    }
  }

  /** The sequence arithmetic behind one step of `PutAllKeys`. */
  lemma PutAllKeysStep(km: seq<string>, ks: seq<string>, k: string, before: seq<string>)
    requires before == km + Without(Dedup(ks), km)
    ensures (if k in before then before else before + [k]) == km + Without(Dedup(ks + [k]), km)
  {
    var d := Dedup(ks);
    DedupSnoc(ks, k);
    DedupMembers(ks);
    WithoutMembers(d, km);
    WithoutSnoc(d, k, km);
    if k !in before {
      AppendAssoc(km, Without(d, km), [k]);
    }
  }

  /** Storing never removes an entry. */
  lemma {:induction false} PutAllGrows(m: AttrList, ps: seq<(string, string)>)
    ensures |PutAll(m, ps)| >= |m|
    decreases |ps|
  {
    if ps != [] {
      var m' := Put(m, ps[0].0, ps[0].1);
      if ps[0].0 in Keys(m) {
        PutSameKeys(m, ps[0].0, ps[0].1);
        assert |Keys(m')| == |Keys(m)|;
      }
      PutAllGrows(m', ps[1..]);
    }
  }

  /** Storing at least one pair into an empty object leaves it non-empty. */
  lemma PutAllNonEmpty(ps: seq<(string, string)>)
    requires ps != []
    ensures PutAll([], ps) != []
  {
    PutAllCons([], ps[0], ps[1..]);
    assert [ps[0]] + ps[1..] == ps;
    PutAllGrows(Put([], ps[0].0, ps[0].1), ps[1..]);
  }

  /** The value of the last pair in `ps` whose key is `k`. */
  function LastValue(ps: seq<(string, string)>, k: string): (v: Option<string>)
    decreases |ps|
  {
    if ps == [] then None
    else match LastValue(ps[1..], k)
      case Some(v) => Some(v)
      case None => if ps[0].0 == k then Some(ps[0].1) else None
  }

  /** `LastValue` is the value of the pair with key `k` that no later pair overrides. */
  lemma {:induction false} LastValueIsLast(ps: seq<(string, string)>, k: string)
    ensures LastValue(ps, k).None? <==> forall i :: 0 <= i < |ps| ==> ps[i].0 != k
    ensures forall i :: 0 <= i < |ps| && ps[i].0 == k && (forall j :: i < j < |ps| ==> ps[j].0 != k)
              ==> LastValue(ps, k) == Some(ps[i].1)
    decreases |ps|
  {
    if ps != [] {
      var rest := ps[1..];
      LastValueIsLast(rest, k);
      assert forall i :: 1 <= i < |ps| ==> ps[i] == rest[i - 1];
      forall i | 0 <= i < |ps| && ps[i].0 == k && (forall j :: i < j < |ps| ==> ps[j].0 != k)
        ensures LastValue(ps, k) == Some(ps[i].1)
      {
        if i > 0 {
          assert forall j :: i - 1 < j < |rest| ==> rest[j].0 != k by {
            forall j | i - 1 < j < |rest| ensures rest[j].0 != k {
              assert rest[j] == ps[j + 1];
            }
          }
        } else {
          assert forall j :: 0 <= j < |rest| ==> rest[j].0 != k by {
            forall j | 0 <= j < |rest| ensures rest[j].0 != k {
              assert rest[j] == ps[j + 1];
            }
          }
        }
      }
    }
  }

  /** After storing `ps`, a key holds the last value `ps` gives it, or its old value. */
  lemma {:induction false} PutAllLookup(m: AttrList, ps: seq<(string, string)>, k: string)
    ensures Lookup(PutAll(m, ps), k) == if LastValue(ps, k).Some? then LastValue(ps, k) else Lookup(m, k)
    decreases |ps|
  {
    if ps != [] {
      PutAllLookup(Put(m, ps[0].0, ps[0].1), ps[1..], k);
    }
  }

  lemma {:induction false} PutAllKeepsUnique(m: AttrList, ps: seq<(string, string)>)
    requires UniqueKeys(m)
    ensures UniqueKeys(PutAll(m, ps))
    decreases |ps|
  {
    if ps != [] {
      PutKeepsUnique(m, ps[0].0, ps[0].1);
      PutAllKeepsUnique(Put(m, ps[0].0, ps[0].1), ps[1..]);
    }
  }

  /** Storing pairs invents no entry: each one comes from `m` or from `ps`. */
  lemma {:induction false} PutAllEntries(m: AttrList, ps: seq<(string, string)>)
    ensures forall e :: e in PutAll(m, ps) ==> e in m || e in ps
    decreases |ps|
  {
    if ps != [] {
      var m' := Put(m, ps[0].0, ps[0].1);
      PutEntries(m, ps[0].0, ps[0].1);
      PutAllEntries(m', ps[1..]);
      assert forall e :: e in ps[1..] ==> e in ps;
    }
  }

  /** Pairs whose keys are all new and distinct are simply appended, in order. */
  lemma {:induction false} PutAllFresh(m: AttrList, ps: seq<(string, string)>)
    requires UniqueKeys(m + ps)
    ensures PutAll(m, ps) == m + ps
    decreases |ps|
  {
    if ps != [] {
      var x := ps[0];
      FreshFirst(m, ps);
      assert (x.0, x.1) == x;
      assert (m + [x]) + ps[1..] == m + ps;
      PutAllFresh(m + [x], ps[1..]);
    }
  }

  /** With all keys distinct, the first key of `ps` is not already a key of `m`. */
  lemma FreshFirst(m: AttrList, ps: seq<(string, string)>)
    requires ps != [] && UniqueKeys(m + ps)
    ensures ps[0].0 !in Keys(m)
  {
    KeysAppend(m, ps);
    var ks := Keys(m) + Keys(ps);
    assert ks[|m|] == ps[0].0;
    forall i | 0 <= i < |m| ensures Keys(m)[i] != ps[0].0 {
      assert ks[i] == Keys(m)[i];
    }
  }

  /** The text `combineSVGs` writes for the entries: ` key="value"` for each, in order. */
  function AttrText(m: AttrList): (text: string) {
    if m == [] then "" else " " + m[0].0 + "=\"" + m[0].1 + "\"" + AttrText(m[1..])
  }

  lemma {:induction false} AttrTextSnoc(m: AttrList, k: string, v: string)
    ensures AttrText(m + [(k, v)]) == AttrText(m) + (" " + k + "=\"" + v + "\"")
    decreases |m|
  {
    var tail := " " + k + "=\"" + v + "\"";
    if m == [] {
      assert [] + [(k, v)] == [(k, v)];
      assert AttrText([(k, v)]) == tail + AttrText([]);
    } else {
      var head := " " + m[0].0 + "=\"" + m[0].1 + "\"";
      var rest := AttrText(m[1..]);
      assert (m + [(k, v)])[1..] == m[1..] + [(k, v)];
      AttrTextSnoc(m[1..], k, v);
      assert AttrText(m + [(k, v)]) == head + (rest + tail);
      assert AttrText(m) == head + rest;
      assert head + (rest + tail) == (head + rest) + tail;
    }
  }
}
