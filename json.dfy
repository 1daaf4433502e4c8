/** The JSON values `serde_json` parses, and what collecting an object's
    entries into a `BTreeMap` does to them: the entries come out in strictly
    ascending key order, and a key given twice keeps the value given last. */
module JsonModel {
  import opened Text

  datatype Value =
    | Null
    | Bool(b: bool)
    | Number(literal: string)
    | String(text: string)
    | Array(items: seq<Value>)
    | Object(entries: seq<(string, Value)>)

  type Entry = (string, Value)

  /** Each key is below the next in the byte-wise order. */
  predicate StrictlySorted(es: seq<Entry>) {
    forall i :: 0 <= i < |es| - 1 ==> Less(es[i].0, es[i + 1].0)
  }

  /** The map a sequence of entries stands for when later entries overwrite
      earlier ones with the same key, as `insert` into a map does. */
  function ToMap(es: seq<Entry>): map<string, Value> {
    if es == [] then map[] else ToMap(es[..|es| - 1])[es[|es| - 1].0 := es[|es| - 1].1]
  }

  function Keys(es: seq<Entry>): set<string> {
    set i | 0 <= i < |es| :: es[i].0
  }

  /** `BTreeMap::insert` on the map held as its sorted entries: the entry goes
      in at its place in key order, or replaces the entry with its key. */
  function Insert(sorted: seq<Entry>, e: Entry): (r: seq<Entry>)
    ensures |r| >= 1
    ensures |sorted| <= |r| <= |sorted| + 1
    ensures r[|r| - 1] == e || (sorted != [] && r[|r| - 1] == sorted[|sorted| - 1])
    decreases |sorted|
  {
    if sorted == [] then [e]
    else
      var last := sorted[|sorted| - 1];
      var init := sorted[..|sorted| - 1];
      if Less(last.0, e.0) then sorted + [e]
      else if last.0 == e.0 then init + [e]
      else Insert(init, e) + [last]
  }

  /** `entries.into_iter().collect::<BTreeMap<_, _>>()`: insert the entries
      one by one, in the order given, into an empty map. */
  function SortedEntries(es: seq<Entry>): (sorted: seq<Entry>)
    ensures |sorted| <= |es|
    ensures es != [] ==> sorted != []
  {
    if es == [] then [] else Insert(SortedEntries(es[..|es| - 1]), es[|es| - 1])
  }

  lemma ToMapSnoc(es: seq<Entry>, e: Entry)
    ensures ToMap(es + [e]) == ToMap(es)[e.0 := e.1]
  {
    assert (es + [e])[..|es|] == es;
  }

  lemma {:induction false} InsertKeepsSorted(sorted: seq<Entry>, e: Entry)
    requires StrictlySorted(sorted)
    ensures StrictlySorted(Insert(sorted, e))
    decreases |sorted|
  {
    if sorted != [] {
      var last := sorted[|sorted| - 1];
      var init := sorted[..|sorted| - 1];
      if !Less(last.0, e.0) && last.0 != e.0 {
        InsertKeepsSorted(init, e);
        LessTotal(last.0, e.0);
        var r := Insert(init, e);
        assert Less(r[|r| - 1].0, last.0);
        assert Insert(sorted, e) == r + [last];
      }
    }
  }

  lemma {:induction false} InsertUpdatesMap(sorted: seq<Entry>, e: Entry)
    ensures ToMap(Insert(sorted, e)) == ToMap(sorted)[e.0 := e.1]
    decreases |sorted|
  {
    if sorted != [] {
      var last := sorted[|sorted| - 1];
      var init := sorted[..|sorted| - 1];
      assert sorted == init + [last];
      ToMapSnoc(init, last);
      if Less(last.0, e.0) {
        assert Insert(sorted, e) == sorted + [e];
        ToMapSnoc(sorted, e);
      } else if last.0 == e.0 {
        assert Insert(sorted, e) == init + [e];
        ToMapSnoc(init, e);
      } else {
        assert Insert(sorted, e) == Insert(init, e) + [last];
        InsertUpdatesMap(init, e);
        ToMapSnoc(Insert(init, e), last);
        UpdatesCommute(ToMap(init), e, last);
      }
    }
  }

  /** Updates at two different keys can be done in either order. */
  lemma UpdatesCommute(m: map<string, Value>, a: Entry, b: Entry)
    requires a.0 != b.0
    ensures m[a.0 := a.1][b.0 := b.1] == m[b.0 := b.1][a.0 := a.1]
  {
  }

  /** Collecting into a `BTreeMap` orders the keys strictly and keeps the
      key-to-value map of the entries, later entries winning. */
  lemma {:induction false} SortedEntriesSpec(es: seq<Entry>)
    ensures StrictlySorted(SortedEntries(es))
    ensures ToMap(SortedEntries(es)) == ToMap(es)
  {
    if es != [] {
      var init := es[..|es| - 1];
      var e := es[|es| - 1];
      SortedEntriesSpec(init);
      InsertKeepsSorted(SortedEntries(init), e);
      InsertUpdatesMap(SortedEntries(init), e);
    }
  }

  /** The keys of the map are exactly the keys that occur among the entries. */
  lemma {:induction false} ToMapKeys(es: seq<Entry>)
    ensures ToMap(es).Keys == Keys(es)
  {
    if es != [] {
      var init := es[..|es| - 1];
      ToMapKeys(init);
      assert Keys(es) == Keys(init) + {es[|es| - 1].0} by {
        assert forall i :: 0 <= i < |init| ==> init[i] == es[i];
      }
    }
  }

  /** In strictly sorted entries every key is below every later key. */
  lemma {:induction false} SortedPairwise(es: seq<Entry>, i: nat, j: nat)
    requires StrictlySorted(es)
    requires i < j < |es|
    ensures Less(es[i].0, es[j].0)
    decreases j - i
  {
    if i + 1 < j {
      SortedPairwise(es, i + 1, j);
      LessTransitive(es[i].0, es[i + 1].0, es[j].0);
    }
  }

  /** Strictly sorted entries hold each key once, so each entry is the map's
      value for its key: the sorted entries are the map, written out. */
  lemma {:induction false} SortedEntriesAreTheMap(es: seq<Entry>, i: nat)
    requires StrictlySorted(es)
    requires i < |es|
    ensures es[i].0 in ToMap(es) && ToMap(es)[es[i].0] == es[i].1
  {
    var n := |es| - 1;
    var init := es[..n];
    if i < n {
      assert StrictlySorted(init) by {
        assert forall k :: 0 <= k < |init| ==> init[k] == es[k];
      }
      SortedEntriesAreTheMap(init, i);
      SortedPairwise(es, i, n);
      LessIrreflexive(es[i].0);
      assert init[i] == es[i];
    }
  }
}
