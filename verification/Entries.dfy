/**
Maps filled one entry after another, with keys that do not repeat.
*/
module Entries {
  type Entry = (string, string)

  ghost function KeysOf(entries: seq<Entry>): set<string> {
    set e | e in entries :: e.0
  }

  // after is before with these entries.
  ghost predicate Filled(before: map<string, string>, after: map<string, string>, entries: seq<Entry>) {
    && after.Keys == before.Keys + KeysOf(entries)
    && (forall e <- entries :: e.0 in after && after[e.0] == e.1)
    && (forall k <- after :: k !in KeysOf(entries) ==> k in before && after[k] == before[k])
  }

  lemma {:induction false} KeysSnoc(entries: seq<Entry>, e: Entry)
    ensures KeysOf(entries + [e]) == KeysOf(entries) + {e.0}
  {
  }

  lemma {:induction false} FilledSame(before: map<string, string>, a: map<string, string>, b: map<string, string>,
                                      ea: seq<Entry>, eb: seq<Entry>)
    requires forall e :: e in ea <==> e in eb
    requires Filled(before, a, ea) && Filled(before, b, eb)
    ensures a == b
  {
  }

  ghost predicate KeysDistinct(entries: seq<Entry>) {
    forall i, j :: 0 <= i < j < |entries| ==> entries[i].0 != entries[j].0
  }

  lemma {:induction false} KeysDistinctSnoc(entries: seq<Entry>, e: Entry)
    ensures KeysDistinct(entries + [e]) <==> KeysDistinct(entries) && e.0 !in KeysOf(entries)
  {
    var all := entries + [e];
    assert forall k :: 0 <= k < |entries| ==> all[k] == entries[k];
    if e.0 in KeysOf(entries) {
      var k :| 0 <= k < |entries| && entries[k].0 == e.0;
      assert all[k].0 == all[|entries|].0;
    } else if KeysDistinct(entries) {
      assert forall k :: 0 <= k < |entries| ==> entries[k] in entries && entries[k].0 in KeysOf(entries);
    }
  }

  // There are as many keys as entries exactly when no two entries have the same key.
  lemma {:induction false} KeysCount(entries: seq<Entry>)
    ensures |KeysOf(entries)| <= |entries|
    ensures |KeysOf(entries)| == |entries| <==> KeysDistinct(entries)
  {
    if entries != [] {
      var front, e := entries[..|entries| - 1], entries[|entries| - 1];
      assert entries == front + [e];
      KeysCount(front);
      KeysSnoc(front, e);
      KeysDistinctSnoc(front, e);
      assert e.0 in KeysOf(front) ==> KeysOf(front) + {e.0} == KeysOf(front);
    }
  }

  // Entries under new keys, no two under the same key, add that many.
  lemma {:induction false} FilledCount(before: map<string, string>, after: map<string, string>, entries: seq<Entry>)
    requires Filled(before, after, entries) && KeysOf(entries) !! before.Keys && KeysDistinct(entries)
    ensures |after| == |before| + |entries|
  {
    KeysCount(entries);
    assert |after.Keys| == |before.Keys| + |KeysOf(entries)|;
  }

  // The map filled with the entries one after another
  function Fill(m: map<string, string>, entries: seq<Entry>): map<string, string> {
    if entries == [] then m
    else
      var e := entries[|entries| - 1];
      Fill(m, entries[..|entries| - 1])[e.0 := e.1]
  }

  lemma {:induction false} FillKeys(m: map<string, string>, entries: seq<Entry>)
    ensures Fill(m, entries).Keys == m.Keys + KeysOf(entries)
  {
    if entries != [] {
      var front, e := entries[..|entries| - 1], entries[|entries| - 1];
      assert entries == front + [e];
      FillKeys(m, front);
      KeysSnoc(front, e);
    }
  }

  lemma {:induction false} FillIs(m: map<string, string>, entries: seq<Entry>)
    requires KeysDistinct(entries)
    ensures Filled(m, Fill(m, entries), entries)
  {
    if entries != [] {
      var front, e := entries[..|entries| - 1], entries[|entries| - 1];
      assert entries == front + [e];
      FillIs(m, front);
    }
  }

  lemma {:induction false} FillAppend(m: map<string, string>, a: seq<Entry>, b: seq<Entry>)
    ensures Fill(m, a + b) == Fill(Fill(m, a), b)
    decreases |b|
  {
    if b == [] {
      assert a + b == a;
    } else {
      assert (a + b)[..|a + b| - 1] == a + b[..|b| - 1];
      FillAppend(m, a, b[..|b| - 1]);
    }
  }

  // Under each key is its last entry.
  lemma {:induction false} FillLast(m: map<string, string>, entries: seq<Entry>, i: nat)
    requires i < |entries| && forall j :: i < j < |entries| ==> entries[j].0 != entries[i].0
    ensures entries[i].0 in Fill(m, entries) && Fill(m, entries)[entries[i].0] == entries[i].1
  {
    var n := |entries| - 1;
    if i < n {
      FillLast(m, entries[..n], i);
    }
  }
}
