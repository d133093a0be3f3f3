/**
What an extraction error says (cmd/sync/markers.go): the first line that cannot follow those
before it, or the region left open.
*/
module ScanErrors {
  import opened Spans
  import opened Nesting

  // No open region of the lines before i answers to an end marker with this topic: for a bare end
  // every region is closed, for a named one the topic was not started or is closed.
  ghost predicate IsUnmatched(ms: seq<Marker>, i: nat, topic: string)
    requires i <= |ms|
  {
    if topic == "" then Starts(ms[..i]) == Ends(ms[..i])
    else Start(topic) !in ms[..i] || exists c :: IsClosedBefore(ms, i, topic, c)
  }

  ghost predicate IsClosedBefore(ms: seq<Marker>, i: nat, topic: string, c: Span)
    requires i <= |ms|
  {
    Scan(ms[..i]).Scanning? && c in Scan(ms[..i]).closed && c.topic == topic
  }

  lemma {:induction false} FirstFailure(ms: seq<Marker>) returns (i: nat)
    requires Scan(ms).Failed?
    ensures i < |ms| && Scan(ms[..i]).Scanning? && Step(Scan(ms[..i]), i, ms[i]) == Scan(ms)
  {
    i := |ms| - 1;
    if Scan(ms[..i]).Failed? {
      i := FirstFailure(ms[..i]);
      assert ms[..|ms| - 1][..i] == ms[..i];
    }
  }

  lemma {:induction false} UnmatchedIff(ms: seq<Marker>, i: nat, topic: string)
    requires i <= |ms| && Scan(ms[..i]).Scanning?
    ensures ClosedBy(Scan(ms[..i]).open, topic) < 0 <==> IsUnmatched(ms, i, topic)
  {
    var st := Scan(ms[..i]);
    ScanKeepsInv(ms[..i]);
    assert TopicsOnce(st);
    hide Scan, Inv, TopicsOnce, LastIndexOf;
    if topic == "" {
      ScanCounts(ms[..i]);
    } else {
      SeenIsStarted(ms[..i], topic);
      NotOpenIff(st, topic);
      assert forall c :: IsClosedBefore(ms, i, topic, c) <==> c in st.closed && c.topic == topic;
    }
  }

  lemma {:induction false} NotOpenIff(st: ScanState, topic: string)
    requires st.Scanning? && TopicsOnce(st)
    ensures LastIndexOf(st.open, topic) < 0 <==> topic !in st.seen || exists c <- st.closed :: c.topic == topic
  {
    var j := LastIndexOf(st.open, topic);
    if j >= 0 {
      assert st.open[j] in st.open;
    } else {
      assert forall o <- st.open :: o.topic != topic;
    }
  }

  // The error names the first line that cannot follow: a malformed marker, a topic started before,
  // or an end that no open region answers to. Lines count from one.
  lemma {:induction false} ErrorIsFirst(ms: seq<Marker>) returns (i: nat)
    requires Scan(ms).Failed?
    ensures i < |ms| && Scan(ms[..i]).Scanning? && !ms[i].Content?
    ensures ms[i].Malformed? ==> Scan(ms) == Failed(BadMarker(i + 1, ms[i].problem))
    ensures ms[i].Start? ==> ms[i] in ms[..i] && Scan(ms) == Failed(DuplicateTopic(i + 1, ms[i].topic))
    ensures ms[i].End? ==> IsUnmatched(ms, i, ms[i].topic) && Scan(ms) == Failed(UnmatchedEnd(i + 1))
  {
    i := FirstFailure(ms);
    hide Scan;
    match ms[i]
    case Start(topic) => SeenIsStarted(ms[..i], topic);
    case End(topic) => UnmatchedIff(ms, i, topic);
    case _ =>
  }

  // A file whose regions are not all closed is blamed on the youngest one that is open.
  lemma {:induction false} LeftOpenIsYoungest(ms: seq<Marker>) returns (p: nat)
    requires Scan(ms).Scanning? && Scan(ms).open != []
    ensures var st := Scan(ms);
      && p < |ms| && ms[p] == Start(st.open[|st.open| - 1].topic) && !StartsAt(st.closed, p)
      && forall q {:trigger StartsAt(st.closed, q)} :: p < q < |ms| && ms[q].Start? ==> StartsAt(st.closed, q)
  {
    var st := Scan(ms);
    ScanKeepsInv(ms);
    hide Scan;
    var o := st.open[|st.open| - 1];
    assert o in st.open;
    p := o.start;
    assert forall c <- st.closed :: IsSpanOf(ms, c);
    assert forall x <- st.open :: x.start <= p;
    forall q | p < q < |ms| && ms[q].Start?
      ensures StartsAt(st.closed, q)
    {
      assert OpensAt(st.open, q) || StartsAt(st.closed, q);
    }
  }
}
