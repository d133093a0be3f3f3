/**
How marked regions nest: with bare ends only, the accepted marker sequences are the balanced
ones and the regions form a laminar family.
*/
module Nesting {
  import opened Spans

  ghost predicate Accepts(ms: seq<Marker>) {
    Scan(ms).Scanning? && Scan(ms).open == []
  }

  ghost predicate BareEnds(ms: seq<Marker>) {
    forall i :: 0 <= i < |ms| && ms[i].End? ==> ms[i].topic == ""
  }

  // Start markers minus end markers
  function Depth(ms: seq<Marker>): int {
    if ms == [] then 0
    else Depth(ms[..|ms| - 1]) + match ms[|ms| - 1] case Start(_) => 1 case End(_) => -1 case _ => 0
  }

  // No end marker comes before its start.
  ghost predicate NeverBelowZero(ms: seq<Marker>) {
    forall i :: 0 <= i <= |ms| ==> Depth(ms[..i]) >= 0
  }

  ghost predicate WellFormed(ms: seq<Marker>) {
    forall i :: 0 <= i < |ms| ==> !ms[i].Malformed?
  }

  ghost predicate StartsDistinct(ms: seq<Marker>) {
    forall i, j :: 0 <= i < j < |ms| && ms[i].Start? && ms[j].Start? ==> ms[i].topic != ms[j].topic
  }

  // A topic has been seen exactly when one of the markers read so far starts it.
  lemma {:induction false} SeenIsStarted(ms: seq<Marker>, topic: string)
    requires Scan(ms).Scanning?
    ensures topic in Scan(ms).seen <==> Start(topic) in ms
  {
    var st := Scan(ms);
    ScanKeepsInv(ms);
    if Start(topic) in ms {
      var i :| 0 <= i < |ms| && ms[i] == Start(topic);
      assert OpensAt(st.open, i) || StartsAt(st.closed, i);
      if OpensAt(st.open, i) {
        var o :| o in st.open && o.start == i;
        assert o.topic == topic;
      } else {
        var c :| c in st.closed && c.start == i;
        assert IsSpanOf(ms, c);
      }
    }
    if topic in st.seen && !exists o <- st.open :: o.topic == topic {
      var c :| c in st.closed && c.topic == topic;
      assert IsSpanOf(ms, c);
    }
  }

  lemma {:induction false} BareScan(ms: seq<Marker>)
    requires BareEnds(ms)
    ensures Scan(ms).Scanning? <==> WellFormed(ms) && NeverBelowZero(ms) && StartsDistinct(ms)
    ensures Scan(ms).Scanning? ==> |Scan(ms).open| == Depth(ms)
  {
    if ms != [] {
      var n := |ms| - 1;
      var before, m := ms[..n], ms[n];
      assert ms == before + [m];
      BareScan(before);
      assert NeverBelowZero(ms) <==> NeverBelowZero(before) && Depth(ms) >= 0 by {
        assert ms[..|ms|] == ms;
        assert forall i :: 0 <= i <= n ==> ms[..i] == before[..i];
      }
      assert WellFormed(ms) <==> WellFormed(before) && !m.Malformed?;
      assert StartsDistinct(ms) <==> StartsDistinct(before) && (m.Start? ==> m !in before);
      if Scan(before).Scanning? && m.Start? {
        SeenIsStarted(before, m.topic);
      }
    }
  }

  // With bare ends only, extraction accepts the marker structure exactly when it is a balanced
  // word of well-formed markers with distinct topics.
  lemma {:induction false} BareAcceptance(ms: seq<Marker>)
    requires BareEnds(ms)
    ensures Accepts(ms) <==> WellFormed(ms) && NeverBelowZero(ms) && Depth(ms) == 0 && StartsDistinct(ms)
  {
    BareScan(ms);
  }

  // ---------- Regions that do not cross ----------

  ghost predicate Laminar(spans: seq<Span>) {
    forall c <- spans, d <- spans :: !Crosses(c, d)
  }

  // No open region started inside a closed one.
  ghost predicate NoneInside(spans: seq<Span>, open: seq<Pending>) {
    forall c <- spans, o <- open :: !(c.start < o.start < c.end)
  }

  // An end marker at i closes the youngest of the regions open there.
  ghost predicate ClosesYoungest(ms: seq<Marker>, i: nat)
    requires i < |ms|
  {
    var st := Scan(ms[..i]);
    ms[i].End? && st.Scanning? ==> ClosedBy(st.open, ms[i].topic) == |st.open| - 1
  }

  ghost predicate EndsInOrder(ms: seq<Marker>) {
    forall i :: 0 <= i < |ms| ==> ClosesYoungest(ms, i)
  }

  lemma {:induction false} EndsInOrderSnoc(ms: seq<Marker>)
    requires ms != []
    ensures EndsInOrder(ms) <==> EndsInOrder(ms[..|ms| - 1]) && ClosesYoungest(ms, |ms| - 1)
  {
    var n := |ms| - 1;
    assert forall i :: 0 <= i < n ==> ms[..n][..i] == ms[..i];
    assert forall i :: 0 <= i < n ==> (ClosesYoungest(ms[..n], i) <==> ClosesYoungest(ms, i));
  }

  // Regions end, and open ones started, before n; the open ones started one after another.
  ghost predicate InPlace(spans: seq<Span>, open: seq<Pending>, n: nat) {
    && (forall c <- spans :: c.start < c.end < n) && (forall o <- open :: o.start < n)
    && (forall x, y :: 0 <= x < y < |open| ==> open[x].start < open[y].start && open[x].topic != open[y].topic)
  }

  lemma {:induction false} ScanInPlace(ms: seq<Marker>)
    requires Scan(ms).Scanning?
    ensures InPlace(Scan(ms).closed, Scan(ms).open, |ms|)
  {
    ScanKeepsInv(ms);
    hide Scan, Covered, YoungestFirst;
  }

  lemma {:induction false} LaminarSnoc(spans: seq<Span>, open: seq<Pending>, j: nat, n: nat)
    requires j < |open| && InPlace(spans, open, n)
    ensures var closed := spans + [Span(open[j].topic, open[j].start, n)];
      Laminar(closed) && NoneInside(closed, RemoveAt(open, j)) <==>
      Laminar(spans) && NoneInside(spans, open) && j == |open| - 1
  {
    var e, rest := Span(open[j].topic, open[j].start, n), RemoveAt(open, j);
    var closed := spans + [e];
    RemoveAtMembers(open, j);
    assert forall c :: c in closed <==> c in spans || c == e;
    assert e in closed && open[j] in open && open[|open| - 1] in open;
    assert j < |open| - 1 ==> open[|open| - 1] in rest && e.start < open[|open| - 1].start < e.end;
    if Laminar(closed) && NoneInside(closed, rest) {
      forall c, o | c in spans && o in open
        ensures !(c.start < o.start < c.end)
      {
        assert c in closed;
        assert o in rest || o == open[j];
        assert !Crosses(c, e);
      }
    }
    if Laminar(spans) && NoneInside(spans, open) && j == |open| - 1 {
      assert forall o <- rest :: o in open && o.start < e.start;
    }
  }

  // So far none crosses exactly when every end so far closed the youngest open region.
  lemma {:induction false} LaminarSoFar(ms: seq<Marker>)
    requires Scan(ms).Scanning?
    ensures Laminar(Scan(ms).closed) && NoneInside(Scan(ms).closed, Scan(ms).open) <==> EndsInOrder(ms)
  {
    if ms != [] {
      var n := |ms| - 1;
      var before := Scan(ms[..n]);
      LaminarSoFar(ms[..n]);
      EndsInOrderSnoc(ms);
      ScanInPlace(ms[..n]);
      hide EndsInOrder, Laminar, NoneInside;
      match ms[n]
      case Start(topic) => NoneInsideSnoc(before.closed, before.open, Pending(topic, n));
      case End(topic) => LaminarSnoc(before.closed, before.open, ClosedBy(before.open, topic), n);
      case _ =>
    } else {
      assert ms == [];
    }
  }

  lemma {:induction false} NoneInsideSnoc(spans: seq<Span>, open: seq<Pending>, o: Pending)
    requires forall c <- spans :: c.end < o.start
    ensures NoneInside(spans, open + [o]) <==> NoneInside(spans, open)
  {
    assert forall x :: x in open + [o] <==> x in open || x == o;
  }

  // The regions of an accepted sequence do not cross exactly when each end marker closes the
  // youngest open region.
  lemma {:induction false} LaminarIff(ms: seq<Marker>)
    requires Accepts(ms)
    ensures Laminar(Scan(ms).closed) <==> EndsInOrder(ms)
  {
    LaminarSoFar(ms);
  }

  // The regions closed by bare ends are pairwise nested or disjoint.
  lemma {:induction false} BareRegionsAreLaminar(ms: seq<Marker>, c: Span, d: Span)
    requires Accepts(ms) && BareEnds(ms)
    requires c in Scan(ms).closed && d in Scan(ms).closed && c.start <= d.start
    ensures c == d || c.end < d.start || (c.start < d.start && d.end < c.end)
  {
    ScanIsSound(ms);
    assert IsSpanOf(ms, c) && IsSpanOf(ms, d);
    assert !Crosses(c, d);
    assert ms[c.end].topic == "";
    if c.start == d.start || c.end == d.end {
      SameSpan(ms, Scan(ms).closed, c, d);
    }
  }

  // Named ends may overlap: this is the shortest crossing pair.
  lemma {:induction false} NamedEndsMayCross()
    ensures var ms := [Start("a"), Start("b"), End("a"), End("b")];
      Accepts(ms) && Scan(ms).closed == [Span("a", 0, 2), Span("b", 1, 3)]
  {
    hide Scan;
    var ms := [Start("a"), Start("b"), End("a"), End("b")];
    var spans := [Span("a", 0, 2), Span("b", 1, 3)];
    assert spans[0] in spans && spans[1] in spans;
    assert Matches(ms, spans) by {
      assert StartsAt(spans, 0) && StartsAt(spans, 1) && EndsAt(spans, 2) && EndsAt(spans, 3);
    }
    ScanIsComplete(ms, spans);
  }

  // The index of the first open region of a topic, or -1
  function FirstIndexOf(open: seq<Pending>, topic: string): (j: int)
    ensures -1 <= j < |open|
    ensures j >= 0 ==> open[j].topic == topic
    ensures forall k :: 0 <= k < (if j >= 0 then j else |open|) ==> open[k].topic != topic
  {
    if open == [] then -1
    else if open[0].topic == topic then 0
    else
      var j := FirstIndexOf(open[1..], topic);
      if j < 0 then -1 else j + 1
  }

  // A named end meets one open region at most, so searching forwards finds the same one.
  lemma {:induction false} SearchDirectionIrrelevant(ms: seq<Marker>, topic: string)
    requires Scan(ms).Scanning?
    ensures FirstIndexOf(Scan(ms).open, topic) == LastIndexOf(Scan(ms).open, topic)
  {
    ScanKeepsInv(ms);
  }

  function Starts(ms: seq<Marker>): nat {
    if ms == [] then 0 else Starts(ms[..|ms| - 1]) + (if ms[|ms| - 1].Start? then 1 else 0)
  }

  function Ends(ms: seq<Marker>): nat {
    if ms == [] then 0 else Ends(ms[..|ms| - 1]) + (if ms[|ms| - 1].End? then 1 else 0)
  }

  lemma {:induction false} ScanCounts(ms: seq<Marker>)
    requires Scan(ms).Scanning?
    ensures Starts(ms) == |Scan(ms).open| + |Scan(ms).closed| && Ends(ms) == |Scan(ms).closed|
  {
    if ms != [] {
      ScanCounts(ms[..|ms| - 1]);
    }
  }

  // The regions of an accepted sequence are as many as its start markers and as its end markers.
  lemma {:induction false} CountsAgree(ms: seq<Marker>, spans: seq<Span>)
    requires Matches(ms, spans)
    ensures Starts(ms) == Ends(ms) == |spans|
  {
    ScanIsComplete(ms, spans);
    ScanCounts(ms);
  }
}
